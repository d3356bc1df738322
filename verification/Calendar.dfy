/**
  The two calendar conversions of jdf.php and the calendars they are meant to
  implement.  The reference side counts days one year and one month at a time
  from the month-length rules; the program side is the closed div/mod arithmetic.
  */
module Calendar {

  datatype Date = Date(y: int, m: int, d: int)

  // ---------------------------------------------------------------- PHP arithmetic

  /** (int)(a / b): truncation toward zero. */
  function Quot(a: int, b: int): int
    requires b > 0
  {
    if a >= 0 then a / b else -((-a) / b)
  }

  /** a % b with the sign of the dividend. */
  function Rem(a: int, b: int): int
    requires b > 0
  {
    a - b * Quot(a, b)
  }

  /** PHP cuts toward zero: the quotient's multiple lies between zero and a, and the rest has a's sign. */
  lemma QuotTruncates(a: int, b: int)
    requires b > 0
    ensures if a >= 0 then 0 <= b * Quot(a, b) <= a else a <= b * Quot(a, b) <= 0
    ensures if a >= 0 then 0 <= Rem(a, b) < b else -b < Rem(a, b) <= 0
  {
    var n := if a >= 0 then a else -a;
    var q := n / b;
    DivBounds(n, b);
    if a < 0 { assert b * (-q) == -(b * q); }
  }

  lemma DivBounds(n: nat, b: int)
    requires b > 0
    ensures 0 <= b * (n / b) <= n < b * (n / b) + b
  {
    assert n == b * (n / b) + n % b;
  }

  // ---------------------------------------------------------------- the Gregorian calendar

  predicate GregorianLeap(y: int) {
    (y % 4 == 0 && y % 100 != 0) || y % 400 == 0
  }

  function GregorianMonthLength(y: int, m: int): int
    requires 1 <= m <= 12
  {
    if m == 2 then (if GregorianLeap(y) then 29 else 28)
    else if m == 4 || m == 6 || m == 9 || m == 11 then 30
    else 31
  }

  predicate ValidGregorian(g: Date) {
    0 <= g.y && 1 <= g.m <= 12 && 1 <= g.d <= GregorianMonthLength(g.y, g.m)
  }

  /** Days in the years 0 .. y-1, counted year by year. */
  function GregorianYearStart(y: int): int
    requires 0 <= y
  {
    if y == 0 then 0
    else GregorianYearStart(y - 1) + (if GregorianLeap(y - 1) then 366 else 365)
  }

  /** Days in the months 1 .. m-1 of year y, counted month by month. */
  function GregorianMonthStart(y: int, m: int): int
    requires 1 <= m <= 13
  {
    if m == 1 then 0
    else GregorianMonthStart(y, m - 1) + GregorianMonthLength(y, m - 1)
  }

  /** Days from 1 January of year 0 to g. */
  function GregorianDay(g: Date): int
    requires ValidGregorian(g)
  {
    GregorianYearStart(g.y) + GregorianMonthStart(g.y, g.m) + g.d - 1
  }

  function GregorianNext(g: Date): Date
    requires ValidGregorian(g)
  {
    if g.d < GregorianMonthLength(g.y, g.m) then Date(g.y, g.m, g.d + 1)
    else if g.m < 12 then Date(g.y, g.m + 1, 1)
    else Date(g.y + 1, 1, 1)
  }

  // ---------------------------------------------------------------- the Jalali calendar

  /** Leap years of the 33-year cycle; year 1 of a cycle is a leap year, and so on by fours. */
  predicate JalaliLeap(y: int) {
    ((y + 12) % 33) % 4 == 1
  }

  function JalaliMonthLength(y: int, m: int): int
    requires 1 <= m <= 12
  {
    if m <= 6 then 31 else if m <= 11 || JalaliLeap(y) then 30 else 29
  }

  /** The first year the arithmetic of the program covers. */
  const JALALI_ORIGIN := -1595

  predicate ValidJalali(j: Date) {
    JALALI_ORIGIN <= j.y && 1 <= j.m <= 12 && 1 <= j.d <= JalaliMonthLength(j.y, j.m)
  }

  function JalaliYearStart(y: int): int
    requires JALALI_ORIGIN <= y
    decreases y - JALALI_ORIGIN
  {
    if y == JALALI_ORIGIN then 0
    else JalaliYearStart(y - 1) + (if JalaliLeap(y - 1) then 366 else 365)
  }

  function JalaliMonthStart(y: int, m: int): int
    requires 1 <= m <= 13
  {
    if m == 1 then 0
    else JalaliMonthStart(y, m - 1) + JalaliMonthLength(y, m - 1)
  }

  /** Days from the first day of year -1595 to j. */
  function JalaliDay(j: Date): int
    requires ValidJalali(j)
  {
    JalaliYearStart(j.y) + JalaliMonthStart(j.y, j.m) + j.d - 1
  }

  function JalaliNext(j: Date): Date
    requires ValidJalali(j)
  {
    if j.d < JalaliMonthLength(j.y, j.m) then Date(j.y, j.m, j.d + 1)
    else if j.m < 12 then Date(j.y, j.m + 1, 1)
    else Date(j.y + 1, 1, 1)
  }

  /** Distance between the two origins, in days. */
  const EPOCH_SHIFT := 355667

  // ---------------------------------------------------------------- the program

  /** The table of days before each month of a common year. */
  const DAYS_BEFORE_MONTH: seq<int> := [0, 31, 59, 90, 120, 151, 181, 212, 243, 273, 304, 334]

  /** The day number gregorian_to_jalali starts from. */
  function GregorianToDays(g: Date): int
    requires 1 <= g.m <= 12
  {
    var gy2 := if g.m > 2 then g.y + 1 else g.y;
    355666 + 365 * g.y + Quot(gy2 + 3, 4) - Quot(gy2 + 99, 100) + Quot(gy2 + 399, 400)
    + g.d + DAYS_BEFORE_MONTH[g.m - 1]
  }

  /** A year offset inside a four-year group and the day inside that year. */
  function SplitFourYears(days: int): (int, int) {
    if days > 365 then (Quot(days - 1, 365), Rem(days - 1, 365)) else (0, days)
  }

  function JalaliMonthDay(days: int): (int, int) {
    if days < 186 then (1 + Quot(days, 31), 1 + Rem(days, 31))
    else (7 + Quot(days - 186, 30), 1 + Rem(days - 186, 30))
  }

  function DaysToJalali(days: int): Date {
    var cycle := Rem(days, 12053);
    var (y, doy) := SplitFourYears(Rem(cycle, 1461));
    var (m, d) := JalaliMonthDay(doy);
    Date(-1595 + 33 * Quot(days, 12053) + 4 * Quot(cycle, 1461) + y, m, d)
  }

  /** What gregorian_to_jalali returns. */
  function ToJalali(g: Date): Date
    requires 1 <= g.m <= 12
  {
    DaysToJalali(GregorianToDays(g))
  }

  /** The day number jalali_to_gregorian starts from. */
  function JalaliToDays(j: Date): int {
    var jy := j.y + 1595;
    -355668 + 365 * jy + Quot(jy, 33) * 8 + Quot(Rem(jy, 33) + 3, 4) + j.d
    + (if j.m < 7 then (j.m - 1) * 31 else (j.m - 7) * 30 + 186)
  }

  /** The century correction: a multiple of 100 years and the days left over. */
  function SplitCenturies(days: int): (int, int) {
    if days > 36524 then
      var rest := Rem(days - 1, 36524);
      (100 * Quot(days - 1, 36524), if rest >= 365 then rest + 1 else rest)
    else (0, days)
  }

  /** Entries of the month table: index 0 holds 0. */
  function MonthTable(gy: int, gm: int): int
    requires 0 <= gm <= 12
  {
    if gm == 0 then 0
    else if gm == 2 then
      (if (Rem(gy, 4) == 0 && Rem(gy, 100) != 0) || Rem(gy, 400) == 0 then 29 else 28)
    else if gm == 4 || gm == 6 || gm == 9 || gm == 11 then 30
    else 31
  }

  /** The month loop: walk forward while the remaining days exceed the month. */
  function WalkMonths(gy: int, gm: int, gd: int): (int, int)
    requires 0 <= gm <= 13
    decreases 13 - gm
  {
    if gm < 13 && gd > MonthTable(gy, gm) then WalkMonths(gy, gm + 1, gd - MonthTable(gy, gm))
    else (gm, gd)
  }

  function DaysToGregorian(days: int): Date {
    var (hundreds, rest) := SplitCenturies(Rem(days, 146097));
    var (y, doy) := SplitFourYears(Rem(rest, 1461));
    var gy := 400 * Quot(days, 146097) + hundreds + 4 * Quot(rest, 1461) + y;
    var (gm, gd) := WalkMonths(gy, 0, doy + 1);
    Date(gy, gm, gd)
  }

  /** What jalali_to_gregorian returns. */
  function ToGregorian(j: Date): Date {
    DaysToGregorian(JalaliToDays(j))
  }

  /** jcheckdate. */
  predicate CheckDate(jm: int, jd: int, jy: int) {
    var last := if jm == 12 && Rem(Rem(jy + 12, 33), 4) != 1 then 29 else 31 - Quot(2 * jm, 13);
    !(jm > 12 || jd > last || jm < 1 || jd < 1 || jy < 1)
  }

  /** The zero-based day of the year computed by jdate. */
  function DayOfYear(j: Date): int {
    if j.m < 7 then (j.m - 1) * 31 + j.d - 1 else (j.m - 7) * 30 + j.d + 185
  }

  /** gregorian_to_jalali, statement by statement. */
  method GregorianToJalali(gy: int, gm: int, gd: int) returns (j: Date)
    requires 1 <= gm <= 12
    ensures j == ToJalali(Date(gy, gm, gd))
  {
    hide Quot, Rem;
    var gy2 := if gm > 2 then gy + 1 else gy;
    var days := 355666 + 365 * gy + Quot(gy2 + 3, 4) - Quot(gy2 + 99, 100) + Quot(gy2 + 399, 400)
    + gd + DAYS_BEFORE_MONTH[gm - 1];
    var jy := -1595 + 33 * Quot(days, 12053);
    days := Rem(days, 12053);
    jy := jy + 4 * Quot(days, 1461);
    days := Rem(days, 1461);
    if days > 365 {
      jy := jy + Quot(days - 1, 365);
      days := Rem(days - 1, 365);
    }
    if days < 186 {
      j := Date(jy, 1 + Quot(days, 31), 1 + Rem(days, 31));
    } else {
      j := Date(jy, 7 + Quot(days - 186, 30), 1 + Rem(days - 186, 30));
    }
  }

  /** jalali_to_gregorian, statement by statement. */
  method JalaliToGregorian(jy0: int, jm: int, jd: int) returns (g: Date)
    ensures g == ToGregorian(Date(jy0, jm, jd))
  {
    hide Quot, Rem, WalkMonths;
    var jy := jy0 + 1595;
    var days := -355668 + 365 * jy + Quot(jy, 33) * 8 + Quot(Rem(jy, 33) + 3, 4) + jd
    + (if jm < 7 then (jm - 1) * 31 else (jm - 7) * 30 + 186);
    var gy := 400 * Quot(days, 146097);
    days := Rem(days, 146097);
    if days > 36524 {
      days := days - 1;
      gy := gy + 100 * Quot(days, 36524);
      days := Rem(days, 36524);
      if days >= 365 { days := days + 1; }
    }
    gy := gy + 4 * Quot(days, 1461);
    days := Rem(days, 1461);
    if days > 365 {
      gy := gy + Quot(days - 1, 365);
      days := Rem(days - 1, 365);
    }
    var gm, gd := MonthLoop(gy, days);
    g := Date(gy, gm, gd);
  }

  /** The loop that ends jalali_to_gregorian. */
  method MonthLoop(gy: int, days: int) returns (gm: int, gd: int)
    ensures (gm, gd) == WalkMonths(gy, 0, days + 1)
  {
    gd := days + 1;
    gm := 0;
    while gm < 13 && gd > MonthTable(gy, gm)
      invariant 0 <= gm <= 13
      invariant WalkMonths(gy, gm, gd) == WalkMonths(gy, 0, days + 1)
    {
      gd := gd - MonthTable(gy, gm);
      gm := gm + 1;
    }
  }

  // ---------------------------------------------------------------- Gregorian day numbers

  /** y / k rounded up, for y >= 0. */
  function Ceiling(y: int, k: int): int
    requires k > 0
  {
    (y + (k - 1)) / k
  }

  /** Leap years among 0 .. y-1. */
  function LeapCount(y: int): int {
    Ceiling(y, 4) - Ceiling(y, 100) + Ceiling(y, 400)
  }

  lemma LeapCountStep(y: int)
    ensures LeapCount(y + 1) == LeapCount(y) + (if GregorianLeap(y) then 1 else 0)
  {
    hide Ceiling;
    CeilingStep4(y);
    CeilingStep100(y);
    CeilingStep400(y);
    CenturyMultiples(y);
  }

  lemma CenturyMultiples(y: int)
    ensures y % 400 == 0 ==> y % 100 == 0
    ensures y % 100 == 0 ==> y % 4 == 0
  {
    if y % 100 == 0 { assert y == 4 * (25 * (y / 100)); }
    if y % 400 == 0 { assert y == 100 * (4 * (y / 400)); }
  }

  // A rounded-up quotient grows by one exactly after a multiple of the divisor.
  lemma CeilingStep4(y: int)
    ensures Ceiling(y + 1, 4) == Ceiling(y, 4) + (if y % 4 == 0 then 1 else 0)
  {
  }

  lemma CeilingStep100(y: int)
    ensures Ceiling(y + 1, 100) == Ceiling(y, 100) + (if y % 100 == 0 then 1 else 0)
  {
  }

  lemma CeilingStep400(y: int)
    ensures Ceiling(y + 1, 400) == Ceiling(y, 400) + (if y % 400 == 0 then 1 else 0)
  {
  }

  lemma {:induction false} GregorianYearStartClosed(y: int)
    requires 0 <= y
    ensures GregorianYearStart(y) == 365 * y + LeapCount(y)
    decreases y
  {
    if y > 0 {
      GregorianYearStartClosed(y - 1);
      LeapCountStep(y - 1);
    }
  }

  lemma GregorianMonthStartTable(y: int, m: int)
    requires 1 <= m <= 12
    ensures GregorianMonthStart(y, m) == DAYS_BEFORE_MONTH[m - 1] + (if m > 2 && GregorianLeap(y) then 1 else 0)
  {
    if m > 1 { GregorianMonthStartTable(y, m - 1); }
  }

  lemma GregorianMonthStartMonotone(y: int, m: int, n: int)
    requires 1 <= m < n <= 13
    ensures GregorianMonthStart(y, m) + GregorianMonthLength(y, m) <= GregorianMonthStart(y, n)
    decreases n
  {
    if m < n - 1 { GregorianMonthStartMonotone(y, m, n - 1); }
  }

  /** The program's starting day number is the counted one, shifted to the Jalali origin. */
  lemma GregorianToDaysCounts(g: Date)
    requires ValidGregorian(g)
    ensures GregorianToDays(g) == GregorianDay(g) + EPOCH_SHIFT
    ensures GregorianDay(g) >= 0
  {
    hide GregorianYearStart, GregorianMonthStart, GregorianLeap;
    GregorianYearStartClosed(g.y);
    LeapCountStep(g.y);
    GregorianMonthStartTable(g.y, g.m);
  }

  lemma {:induction false} GregorianYearStartMonotone(y: int, z: int)
    requires 0 <= y < z
    ensures GregorianYearStart(y + 1) <= GregorianYearStart(z)
    decreases z
  {
    if y + 1 < z { GregorianYearStartMonotone(y, z - 1); }
  }

  lemma GregorianWithinYear(g: Date)
    requires ValidGregorian(g)
    ensures GregorianYearStart(g.y) <= GregorianDay(g) < GregorianYearStart(g.y + 1)
  {
    GregorianMonthStartTable(g.y, g.m);
  }

  lemma GregorianDayInjective(a: Date, b: Date)
    requires ValidGregorian(a) && ValidGregorian(b)
    requires GregorianDay(a) == GregorianDay(b)
    ensures a == b
  {
    GregorianWithinYear(a);
    GregorianWithinYear(b);
    if a.y < b.y { GregorianYearStartMonotone(a.y, b.y); }
    if b.y < a.y { GregorianYearStartMonotone(b.y, a.y); }
    if a.m < b.m { GregorianMonthStartMonotone(a.y, a.m, b.m); }
    if b.m < a.m { GregorianMonthStartMonotone(a.y, b.m, a.m); }
  }

  // ---------------------------------------------------------------- Jalali day numbers

  lemma {:induction false} JalaliYearStartClosed(y: int)
    requires JALALI_ORIGIN <= y
    ensures var n := y - JALALI_ORIGIN;
            JalaliYearStart(y) == 365 * n + n / 33 * 8 + (n % 33 + 3) / 4
    decreases y - JALALI_ORIGIN
  {
    hide JalaliLeap;
    if y > JALALI_ORIGIN {
      JalaliYearStartClosed(y - 1);
      JalaliLeapByOrigin(y - 1);
      ThirtyThreeStep(y - 1 - JALALI_ORIGIN);
    }
  }

  /** One more year in the closed formula. */
  lemma ThirtyThreeStep(n: int)
    requires 0 <= n
    ensures (n + 1) / 33 * 8 + ((n + 1) % 33 + 3) / 4
            == n / 33 * 8 + (n % 33 + 3) / 4 + (if n % 33 % 4 == 0 && n % 33 != 32 then 1 else 0)
  {
    var q, r := n / 33, n % 33;
    assert (n + 1) / 33 == (if r == 32 then q + 1 else q) && (n + 1) % 33 == if r == 32 then 0 else r + 1;
  }

  /** The leap rule read from the origin of the 33-year cycles. */
  lemma JalaliLeapByOrigin(y: int)
    ensures var r := (y - JALALI_ORIGIN) % 33; JalaliLeap(y) <==> r % 4 == 0 && r != 32
  {
    var r := (y - JALALI_ORIGIN) % 33;
    assert (y + 12) % 33 == (r + 1) % 33;
  }

  lemma JalaliMonthStartClosed(y: int, m: int)
    requires 1 <= m <= 12
    ensures JalaliMonthStart(y, m) == if m < 7 then (m - 1) * 31 else (m - 7) * 30 + 186
  {
    if m > 1 { JalaliMonthStartClosed(y, m - 1); }
  }

  /** The program's starting day number is the counted one, shifted to the Gregorian origin. */
  lemma JalaliToDaysCounts(j: Date)
    requires ValidJalali(j)
    ensures JalaliToDays(j) == JalaliDay(j) - EPOCH_SHIFT
    ensures JalaliDay(j) >= 0
  {
    JalaliYearStartClosed(j.y);
    JalaliMonthStartClosed(j.y, j.m);
  }

  lemma {:induction false} JalaliYearStartMonotone(y: int, z: int)
    requires JALALI_ORIGIN <= y < z
    ensures JalaliYearStart(y + 1) <= JalaliYearStart(z)
    decreases z - y
  {
    if y + 1 < z { JalaliYearStartMonotone(y, z - 1); }
  }

  lemma JalaliDayInjective(a: Date, b: Date)
    requires ValidJalali(a) && ValidJalali(b)
    requires JalaliDay(a) == JalaliDay(b)
    ensures a == b
  {
    JalaliMonthStartClosed(a.y, a.m);
    JalaliMonthStartClosed(b.y, b.m);
    if a.y < b.y { JalaliYearStartMonotone(a.y, b.y); }
    if b.y < a.y { JalaliYearStartMonotone(b.y, a.y); }
  }

  // ---------------------------------------------------------------- decoding a day number

  /** The year-start formula, written in the digits the decoder uses. */
  lemma JalaliYearByDigits(c: int, b: int, y: int)
    requires 0 <= c && 0 <= b <= 8 && 0 <= y <= 3 && (b == 8 ==> y == 0)
    ensures var jy := -1595 + 33 * c + 4 * b + y;
            && JalaliYearStart(jy) == 12053 * c + 1461 * b + (if y == 0 then 0 else 365 * y + 1)
            && (JalaliLeap(jy) <==> y == 0 && b != 8)
  {
    hide JalaliYearStart, JalaliLeap;
    var k := 33 * c + (4 * b + y);
    assert k / 33 == c && k % 33 == 4 * b + y;
    JalaliYearStartClosed(k - 1595);
    JalaliLeapByOrigin(k - 1595);
  }

  lemma SplitFourYearsDigits(days: int)
    requires 0 <= days <= 1460
    ensures var (y, doy) := SplitFourYears(days);
            && 0 <= y <= 3 && 0 <= doy <= (if y == 0 then 365 else 364)
            && days == doy + (if y == 0 then 0 else 365 * y + 1)
  {
  }

  /** Every natural day number decodes to the one Jalali date with that number. */
  lemma DaysToJalaliDecodes(n: int)
    requires n >= 0
    ensures ValidJalali(DaysToJalali(n))
    ensures JalaliDay(DaysToJalali(n)) == n
  {
    hide JalaliYearStart, JalaliMonthStart, JalaliLeap, JalaliMonthLength, SplitFourYears, JalaliMonthDay;
    var c, n1 := n / 12053, n % 12053;
    var b, n2 := n1 / 1461, n1 % 1461;
    assert n == 12053 * c + n1 && n1 == 1461 * b + n2;
    assert 0 <= b <= 8 && (b == 8 ==> n2 < 365);
    SplitFourYearsDigits(n2);
    var (y, doy) := SplitFourYears(n2);
    JalaliYearByDigits(c, b, y);
    JalaliMonthDayDecodes(-1595 + 33 * c + 4 * b + y, doy);
  }

  lemma JalaliMonthDayDecodes(jy: int, doy: int)
    requires 0 <= doy <= (if JalaliLeap(jy) then 365 else 364)
    ensures var (m, d) := JalaliMonthDay(doy);
            1 <= m <= 12 && 1 <= d <= JalaliMonthLength(jy, m) && JalaliMonthStart(jy, m) + d - 1 == doy
  {
    var (m, d) := JalaliMonthDay(doy);
    JalaliMonthStartClosed(jy, m);
  }

  lemma SplitCenturiesDigits(days: int)
    requires 0 <= days < 146097
    ensures var (h, rest) := SplitCenturies(days);
            && h in {0, 100, 200, 300} && 0 <= rest <= 36524
            && (h != 0 ==> rest != 365)
            && days == 36524 * (h / 100) + rest + (if h != 0 && rest < 365 then 1 else 0)
  {
  }

  lemma GregorianYearSplit(n: int) returns (gy: int, doy: int)
    requires n >= 0
    ensures gy == DaysToGregorian(n).y >= 0
    ensures 0 <= doy < (if GregorianLeap(gy) then 366 else 365)
    ensures GregorianYearStart(gy) + doy == n
    ensures WalkMonths(gy, 0, doy + 1) == (DaysToGregorian(n).m, DaysToGregorian(n).d)
  {
    hide GregorianYearStart, GregorianLeap, SplitCenturies, SplitFourYears, WalkMonths;
    var q, n1 := n / 146097, n % 146097;
    SplitCenturiesDigits(n1);
    var (h, n2) := SplitCenturies(n1);
    var b, n3 := n2 / 1461, n2 % 1461;
    SplitFourYearsDigits(n3);
    var (y, d) := SplitFourYears(n3);
    gy, doy := 400 * q + h + 4 * b + y, d;
    assert 0 <= b <= 24;
    GregorianYearByDigits(q, h / 100, b, y);
  }

  lemma GregorianYearByDigits(q: int, c: int, b: int, y: int)
    requires 0 <= q && 0 <= c <= 3 && 0 <= b <= 24 && 0 <= y <= 3
    ensures var gy := 400 * q + 100 * c + 4 * b + y;
            && (GregorianLeap(gy) <==> y == 0 && (b != 0 || c == 0))
            && GregorianYearStart(gy)
               == 146097 * q + 36524 * c + 1461 * b + 365 * y
                  + (if y == 0 then 0 else 1)
                  + (if c != 0 && b == 0 && y == 0 then 1 else 0)
  {
    hide GregorianYearStart, GregorianLeap, LeapCount;
    YearInQuadricentury(q, c, b, y);
    GregorianYearStartClosed(400 * q + 100 * c + 4 * b + y);
  }

  // The three rounded-up quotients and the leap rule, in the digits the decoder uses.
  lemma Fours(q: int, c: int, b: int, y: int)
    requires 0 <= y <= 3
    ensures Ceiling(400 * q + 100 * c + 4 * b + y, 4) == 100 * q + 25 * c + b + (if y == 0 then 0 else 1)
    ensures (400 * q + 100 * c + 4 * b + y) % 4 == y
  {
    assert 400 * q + 100 * c + 4 * b + y == 4 * (100 * q + 25 * c + b) + y;
  }

  lemma Hundreds(q: int, c: int, d: int)
    requires 0 <= d <= 99
    ensures Ceiling(400 * q + 100 * c + d, 100) == 4 * q + c + (if d == 0 then 0 else 1)
    ensures (400 * q + 100 * c + d) % 100 == d
  {
    assert 400 * q + 100 * c + d == 100 * (4 * q + c) + d;
  }

  lemma FourHundreds(q: int, d: int)
    requires 0 <= d <= 399
    ensures Ceiling(400 * q + d, 400) == q + (if d == 0 then 0 else 1)
    ensures (400 * q + d) % 400 == d
  {
  }

  lemma YearInQuadricentury(q: int, c: int, b: int, y: int)
    requires 0 <= q && 0 <= c <= 3 && 0 <= b <= 24 && 0 <= y <= 3
    ensures var gy := 400 * q + 100 * c + 4 * b + y;
            && (GregorianLeap(gy) <==> y == 0 && (b != 0 || c == 0))
            && LeapCount(gy) == 97 * q + 24 * c + b + (if y == 0 then 0 else 1)
                                - (if b == 0 && y == 0 then 0 else 1) + (if c == 0 && b == 0 && y == 0 then 0 else 1)
  {
    hide Ceiling;
    Fours(q, c, b, y);
    Hundreds(q, c, 4 * b + y);
    FourHundreds(q, 100 * c + 4 * b + y);
  }

  lemma WalkMonthsDecodes(gy: int, gm: int, gd: int)
    requires 0 <= gy && 1 <= gm <= 12
    requires 1 <= gd <= GregorianMonthStart(gy, 13) - GregorianMonthStart(gy, gm)
    ensures var (m, d) := WalkMonths(gy, gm, gd);
            1 <= m <= 12 && 1 <= d <= GregorianMonthLength(gy, m)
            && GregorianMonthStart(gy, m) + d == GregorianMonthStart(gy, gm) + gd
    decreases 13 - gm
  {
    assert MonthTable(gy, gm) == GregorianMonthLength(gy, gm);
    if gd > MonthTable(gy, gm) && gm < 12 {
      WalkMonthsDecodes(gy, gm + 1, gd - MonthTable(gy, gm));
    }
  }

  /** Every natural day number decodes to the one Gregorian date with that number. */
  lemma DaysToGregorianDecodes(n: int)
    requires n >= 0
    ensures ValidGregorian(DaysToGregorian(n))
    ensures GregorianDay(DaysToGregorian(n)) == n
  {
    var gy, doy := GregorianYearSplit(n);
    GregorianMonthStartTable(gy, 12);
    WalkMonthsDecodes(gy, 1, doy + 1);
  }

  // ---------------------------------------------------------------- main results

  /** gregorian_to_jalali keeps the absolute day and returns a real Jalali date. */
  lemma ToJalaliDay(g: Date)
    requires ValidGregorian(g)
    ensures ValidJalali(ToJalali(g))
    ensures JalaliDay(ToJalali(g)) == GregorianDay(g) + EPOCH_SHIFT
  {
    GregorianToDaysCounts(g);
    DaysToJalaliDecodes(GregorianToDays(g));
  }

  /** jalali_to_gregorian keeps the absolute day and returns a real Gregorian date. */
  lemma ToGregorianDay(j: Date)
    requires ValidJalali(j) && JalaliDay(j) >= EPOCH_SHIFT
    ensures ValidGregorian(ToGregorian(j))
    ensures GregorianDay(ToGregorian(j)) + EPOCH_SHIFT == JalaliDay(j)
  {
    JalaliToDaysCounts(j);
    DaysToGregorianDecodes(JalaliToDays(j));
  }

  lemma GregorianRoundTrip(g: Date)
    requires ValidGregorian(g)
    ensures ToGregorian(ToJalali(g)) == g
  {
    ToJalaliDay(g);
    GregorianToDaysCounts(g);
    ToGregorianDay(ToJalali(g));
    GregorianDayInjective(g, ToGregorian(ToJalali(g)));
  }

  lemma JalaliRoundTrip(j: Date)
    requires ValidJalali(j) && JalaliDay(j) >= EPOCH_SHIFT
    ensures ValidGregorian(ToGregorian(j))
    ensures ToJalali(ToGregorian(j)) == j
  {
    hide ToJalali, ToGregorian, JalaliDay, GregorianDay;
    ToGregorianDay(j);
    ToJalaliDay(ToGregorian(j));
    JalaliDayInjective(j, ToJalali(ToGregorian(j)));
  }

  /** From year 1 on, jcheckdate accepts exactly the dates gregorian_to_jalali produces. */
  lemma CheckDateIsImage(j: Date)
    requires j.y >= 1
    ensures CheckDate(j.m, j.d, j.y) <==> exists g :: ValidGregorian(g) && ToJalali(g) == j
  {
    CheckDateIsValid(j);
    if CheckDate(j.m, j.d, j.y) {
      YearOneIsAfterEpoch(j);
      JalaliRoundTrip(j);
      ToGregorianDay(j);
      assert ValidGregorian(ToGregorian(j)) && ToJalali(ToGregorian(j)) == j;
    }
    forall g | ValidGregorian(g) && ToJalali(g) == j
      ensures CheckDate(j.m, j.d, j.y)
    {
      ToJalaliDay(g);
    }
  }

  lemma CheckDateIsValid(j: Date)
    requires j.y >= 1
    ensures CheckDate(j.m, j.d, j.y) <==> ValidJalali(j)
  {
    assert 1 <= j.m <= 12 ==> (2 * j.m) / 13 == if j.m <= 6 then 0 else 1;
  }

  lemma YearOneIsAfterEpoch(j: Date)
    requires ValidJalali(j) && j.y >= 1
    ensures JalaliDay(j) >= EPOCH_SHIFT
  {
    JalaliYearStartClosed(j.y);
    JalaliMonthStartClosed(j.y, j.m);
  }

  lemma GregorianNextDay(g: Date)
    requires ValidGregorian(g)
    ensures ValidGregorian(GregorianNext(g)) && GregorianDay(GregorianNext(g)) == GregorianDay(g) + 1
  {
    hide GregorianLeap;
    if g.m == 12 {
      GregorianMonthStartTable(g.y, 12);
      assert GregorianYearStart(g.y + 1) == GregorianYearStart(g.y) + if GregorianLeap(g.y) then 366 else 365;
    } else {
      assert GregorianMonthStart(g.y, g.m + 1) == GregorianMonthStart(g.y, g.m) + GregorianMonthLength(g.y, g.m);
    }
  }

  lemma JalaliNextDay(j: Date)
    requires ValidJalali(j)
    ensures ValidJalali(JalaliNext(j)) && JalaliDay(JalaliNext(j)) == JalaliDay(j) + 1
  {
    JalaliMonthStartClosed(j.y, j.m);
  }

  /** The conversion walks both calendars in step. */
  lemma NextDayCommutes(g: Date)
    requires ValidGregorian(g)
    ensures ValidJalali(ToJalali(g)) && ValidGregorian(GregorianNext(g))
    ensures ToJalali(GregorianNext(g)) == JalaliNext(ToJalali(g))
  {
    hide ToJalali, JalaliDay, GregorianDay, JalaliNext, GregorianNext;
    GregorianNextDay(g);
    ToJalaliDay(g);
    ToJalaliDay(GregorianNext(g));
    JalaliNextDay(ToJalali(g));
    JalaliDayInjective(ToJalali(GregorianNext(g)), JalaliNext(ToJalali(g)));
  }

  /** jdate's day-of-year is the distance from the first of Farvardin. */
  lemma DayOfYearCounts(j: Date)
    requires ValidJalali(j)
    ensures DayOfYear(j) == JalaliDay(j) - JalaliDay(Date(j.y, 1, 1))
    ensures DayOfYear(j) < JalaliYearStart(j.y + 1) - JalaliYearStart(j.y)
  {
    JalaliMonthStartClosed(j.y, j.m);
  }

  lemma KnownDays()
    ensures GregorianToDays(Date(2000, 1, 1)) == 1086152
    ensures GregorianToDays(Date(1979, 2, 11)) == 1078523
    ensures GregorianToDays(Date(2024, 3, 20)) == 1094997
  {
  }

  /** A day number taken apart into 33-year cycle, four-year group, year and day of the year. */
  lemma DayParts(days: int, cycles: int, groups: int, y: int, doy: int)
    requires 0 <= cycles && 0 <= groups <= 8 && 0 <= y <= 3 && 0 <= doy < 365 + (if y == 0 then 1 else 0)
    requires groups == 8 ==> y == 0 && doy < 365
    requires days == 12053 * cycles + 1461 * groups + 365 * y + doy + (if y == 0 then 0 else 1)
    ensures var (m, d) := JalaliMonthDay(doy);
            DaysToJalali(days) == Date(-1595 + 33 * cycles + 4 * groups + y, m, d)
  {
    var cycle := days - 12053 * cycles;
    assert Quot(days, 12053) == cycles && Rem(days, 12053) == cycle;
    assert Quot(cycle, 1461) == groups && Rem(cycle, 1461) == cycle - 1461 * groups;
  }

  /** Fixed points of the two calendars: the first day of 2000, the day of a revolution, and a New Year. */
  lemma KnownDates()
    ensures ToJalali(Date(2000, 1, 1)) == Date(1378, 10, 11) && ToGregorian(Date(1378, 10, 11)) == Date(2000, 1, 1)
    ensures ToJalali(Date(1979, 2, 11)) == Date(1357, 11, 22) && ToGregorian(Date(1357, 11, 22)) == Date(1979, 2, 11)
    ensures ToJalali(Date(2024, 3, 20)) == Date(1403, 1, 1) && ToGregorian(Date(1403, 1, 1)) == Date(2024, 3, 20)
  {
    hide DaysToJalali, GregorianToDays, ToGregorian;
    KnownDays();
    DayParts(1086152, 90, 0, 3, 286);
    DayParts(1078523, 89, 3, 3, 327);
    DayParts(1094997, 90, 7, 0, 0);
    assert JalaliMonthDay(286) == (10, 11) && JalaliMonthDay(327) == (11, 22) && JalaliMonthDay(0) == (1, 1);
    GregorianRoundTrip(Date(2000, 1, 1));
    GregorianRoundTrip(Date(1979, 2, 11));
    GregorianRoundTrip(Date(2024, 3, 20));
  }
}
