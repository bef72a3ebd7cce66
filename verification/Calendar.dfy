/** Day numbers of the proleptic Gregorian calendar and two ways to the day of the week. */
module Calendar {
  import opened ModArith

  type Date = (int, int, int)

  predicate Leap(y: int) {
    if Rem(y, 400) == 0 then true
    else if Rem(y, 100) == 0 then false
    else Rem(y, 4) == 0
  }

  function DaysInMonth(y: int, m: int): int {
    if m == 2 then (if Leap(y) then 29 else 28)
    else if m == 4 || m == 6 || m == 9 || m == 11 then 30
    else 31
  }

  predicate ValidDate(date: Date) {
    1 <= date.1 <= 12 && 1 <= date.2 <= DaysInMonth(date.0, date.1)
  }

  function ToDaynum(date: Date): int {
    var (y, m, d) := date;
    var y2 := if m <= 2 then y - 1 else y;
    var era := Div(if y2 >= 0 then y2 else y2 - 399, 400);
    var yoe := y2 - era * 400;
    var mp := Rem(m + 9, 12);
    var doy := Div(153 * mp + 2, 5) + d - 1;
    var doe := yoe * 365 + Div(yoe, 4) - Div(yoe, 100) + doy;
    era * 146097 + doe - 719468
  }

  function FromDaynum(dn: int): Date {
    var z := dn + 719468;
    var era := Div(if z >= 0 then z else z - 146096, 146097);
    var doe := z - era * 146097;
    var yoe := Div(doe - Div(doe, 1460) + Div(doe, 36524) - Div(doe, 146096), 365);
    var y := yoe + era * 400;
    var doy := doe - (365 * yoe + Div(yoe, 4) - Div(yoe, 100));
    var mp := Div(5 * doy + 2, 153);
    var d := doy - Div(153 * mp + 2, 5) + 1;
    var m := if mp < 10 then mp + 3 else mp - 9;
    (if m <= 2 then y + 1 else y, m, d)
  }

  /** 0 is Monday. */
  function Zeller(date: Date): int {
    var (y, m, d) := date;
    var m2 := if m < 3 then m + 12 else m;
    var y2 := if m < 3 then y - 1 else y;
    var k := Rem(y2, 100);
    var j := Div(y2, 100);
    var hh := Rem(d + Div(13 * (m2 + 1), 5) + k + Div(k, 4) + Div(j, 4) + 5 * j, 7);
    Rem(hh + 5, 7)
  }

  function DowFromDaynum(dn: int): int {
    Rem(Rem(dn + 3, 7) + 7, 7)
  }

  // ---- Truncated division where the operands allow no difference ----

  lemma DivFloor(a: int, b: int)
    requires b > 0
    ensures a >= 0 ==> Div(a, b) == a / b && Rem(a, b) == a % b
    ensures Div(if a >= 0 then a else a - (b - 1), b) == a / b
    ensures Rem(a, b) == 0 <==> a % b == 0
  {
    if a < 0 {
      var q, r := a / b, a % b;
      assert -(a - (b - 1)) == b * -q + (b - 1 - r);
      QuotientIs(-(a - (b - 1)), b, -q, b - 1 - r);
      if r == 0 { QuotientIs(-a, b, -q, 0); } else { QuotientIs(-a, b, -q - 1, b - r); }
    }
  }

  lemma QuotientIs(x: int, b: int, q: int, r: int)
    requires b > 0 && x == b * q + r && 0 <= r < b
    ensures x / b == q && x % b == r
  {
    var p, s := x / b, x % b;
    assert b * (p - q) == r - s;
    MulZero(b, p - q);
  }

  lemma LeapIs(y: int)
    ensures Leap(y) <==> y % 400 == 0 || (y % 4 == 0 && y % 100 != 0)
  {
    DivFloor(y, 400);
    DivFloor(y, 100);
    DivFloor(y, 4);
  }

  // ---- A day number taken apart ----

  /** Day of the shifted year (0 = March 1st) on which shifted month `mp` begins. */
  function MonthStart(mp: int): int {
    (153 * mp + 2) / 5
  }

  /** A day number from its 400-year era, year of the era and day of the year. */
  function Joined(era: int, yoe: int, doy: int): int {
    era * 146097 + yoe * 365 + yoe / 4 - yoe / 100 + doy - 719468
  }

  function ShiftedYear(date: Date): int {
    if date.1 <= 2 then date.0 - 1 else date.0
  }

  function ShiftedMonth(m: int): int {
    if m <= 2 then m + 9 else m - 3
  }

  function DayOfYear(date: Date): int {
    MonthStart(ShiftedMonth(date.1)) + date.2 - 1
  }

  lemma ToDaynumIs(date: Date)
    requires 1 <= date.1 <= 12
    ensures var y2 := ShiftedYear(date);
      ToDaynum(date) == Joined(y2 / 400, y2 % 400, DayOfYear(date))
  {
    var y2, mp := ShiftedYear(date), ShiftedMonth(date.1);
    DivFloor(y2, 400);
    DivFloor(date.1 + 9, 12);
    assert (date.1 + 9) % 12 == mp;
    DivFloor(153 * mp + 2, 5);
    DivFloor(y2 % 400, 4);
    DivFloor(y2 % 400, 100);
  }

  /** The shifted year ends with February, so only its last day depends on the leap rule. */
  predicate YearEndOk(yoe: int, doy: int) {
    0 <= doy <= 365 && (doy == 365 ==> (yoe + 1) % 400 == 0 || ((yoe + 1) % 4 == 0 && (yoe + 1) % 100 != 0))
  }

  lemma DayOfYearOk(date: Date)
    requires ValidDate(date)
    ensures YearEndOk(ShiftedYear(date) % 400, DayOfYear(date))
  {
    var y2 := ShiftedYear(date);
    LeapIs(y2 + 1);
    var mp := ShiftedMonth(date.1);
    MonthStarts();
    if mp == 11 {
      ModShift(y2);
    }
  }

  lemma ModShift(y2: int)
    ensures (y2 % 400 + 1) % 400 == (y2 + 1) % 400
    ensures (y2 % 400 + 1) % 4 == (y2 + 1) % 4
    ensures (y2 % 400 + 1) % 100 == (y2 + 1) % 100
  {
    var q, x := y2 / 400, y2 % 400 + 1;
    assert y2 + 1 == 400 * q + x;
    ModDrop(400, q, x);
    ModDrop(4, 100 * q, x);
    ModDrop(100, 4 * q, x);
  }

  lemma ModDrop(b: int, q: int, x: int)
    requires b > 0
    ensures (b * q + x) % b == x % b
  {
    assert b * q + x == b * (q + x / b) + x % b;
    QuotientIs(b * q + x, b, q + x / b, x % b);
  }

  lemma MonthStarts()
    ensures MonthStart(0) == 0 && MonthStart(1) == 31 && MonthStart(2) == 61 && MonthStart(3) == 92
    ensures MonthStart(4) == 122 && MonthStart(5) == 153 && MonthStart(6) == 184 && MonthStart(7) == 214
    ensures MonthStart(8) == 245 && MonthStart(9) == 275 && MonthStart(10) == 306 && MonthStart(11) == 337
  {
  }

  // ---- The year of the era is recovered ----

  lemma YearOfEra(yoe: int, doy: int)
    requires 0 <= yoe < 400 && YearEndOk(yoe, doy)
    ensures var doe := yoe * 365 + yoe / 4 - yoe / 100 + doy;
      && 0 <= doe < 146097
      && (doe - doe / 1460 + doe / 36524 - doe / 146096) / 365 == yoe
  {
    var c, y1 := yoe / 100, yoe % 100;
    var k, j := y1 / 4, y1 % 4;
    var doe := yoe * 365 + yoe / 4 - yoe / 100 + doy;
    assert yoe / 4 == 25 * c + k;
    LastDayLeap(yoe, doy, c, k, j);
    Centuries(doe, c, 1461 * k + 365 * j + doy);
    FourYears(doe, doy, c, k, j);
  }

  /** The century count, corrected for the last day of the era. */
  lemma Centuries(doe: int, c: int, n: int)
    requires 0 <= c <= 3 && 0 <= n <= 36524 && (n == 36524 ==> c == 3) && doe == 36524 * c + n
    ensures 0 <= doe < 146097 && doe / 36524 - doe / 146096 == c
  {
  }

  /** The quotient by 1460 counts leap days, and one more on the days where that is needed. */
  lemma FourYears(doe: int, doy: int, c: int, k: int, j: int)
    requires 0 <= c <= 3 && 0 <= k <= 24 && 0 <= j <= 3 && 0 <= doy <= 365 && (doy == 365 ==> j == 3)
    requires doe == 36524 * c + 1461 * k + 365 * j + doy
    ensures (doe - doe / 1460 + c) / 365 == 100 * c + 4 * k + j
  {
    var over := k + 24 * c + 365 * j + doy;
    var e := if over >= 1460 then 1 else 0;
    assert doe == 1460 * (25 * c + k) + over;
    assert doe / 1460 == 25 * c + k + e;
  }

  lemma LastDayLeap(yoe: int, doy: int, c: int, k: int, j: int)
    requires 0 <= yoe < 400 && YearEndOk(yoe, doy)
    requires yoe == 100 * c + 4 * k + j && 0 <= c <= 3 && 0 <= k <= 24 && 0 <= j <= 3
    ensures doy == 365 ==> j == 3 && (k == 24 ==> c == 3)
  {
    if doy == 365 {
      assert (yoe + 1) % 4 == (j + 1) % 4;
    }
  }

  lemma FromDaynumIs(era: int, yoe: int, doy: int)
    requires 0 <= yoe < 400 && YearEndOk(yoe, doy)
    ensures var mp := (5 * doy + 2) / 153;
            var m, y := (if mp < 10 then mp + 3 else mp - 9), yoe + era * 400;
      FromDaynum(Joined(era, yoe, doy)) == (if m <= 2 then y + 1 else y, m, doy - MonthStart(mp) + 1)
  {
    hide Div, Rem;
    var doe := yoe * 365 + yoe / 4 - yoe / 100 + doy;
    var z := Joined(era, yoe, doy) + 719468;
    YearOfEra(yoe, doy);
    QuotientIs(z, 146097, era, doe);
    DivFloor(z, 146097);
    FromEra(era, doe, yoe);
    DivFloor(yoe, 4);
    DivFloor(yoe, 100);
    DivFloor(5 * doy + 2, 153);
    DivFloor(153 * ((5 * doy + 2) / 153) + 2, 5);
  }

  lemma FromEra(era: int, doe: int, yoe: int)
    requires 0 <= doe < 146097 && (doe - doe / 1460 + doe / 36524 - doe / 146096) / 365 == yoe
    ensures Div(doe - Div(doe, 1460) + Div(doe, 36524) - Div(doe, 146096), 365) == yoe
  {
    hide Div, Rem;
    DivFloor(doe, 1460);
    DivFloor(doe, 36524);
    DivFloor(doe, 146096);
    var x := doe - doe / 1460 + doe / 36524 - doe / 146096;
    assert x >= 0;
    DivFloor(x, 365);
  }

  lemma MonthRecovered(date: Date)
    requires ValidDate(date)
    ensures (5 * DayOfYear(date) + 2) / 153 == ShiftedMonth(date.1)
  {
    MonthStarts();
    LeapIs(date.0);
  }

  lemma DayOfYearIs(date: Date)
    ensures DayOfYear(date) == MonthStart(ShiftedMonth(date.1)) + date.2 - 1
  {
  }

  /** The conversion loses nothing, in any year. */
  lemma DaynumRoundTrip(date: Date)
    requires ValidDate(date)
    ensures FromDaynum(ToDaynum(date)) == date
  {
    hide ToDaynum, FromDaynum, Joined, DayOfYear;
    var y2 := ShiftedYear(date);
    ToDaynumIs(date);
    DayOfYearOk(date);
    DayOfYearIs(date);
    FromDaynumIs(y2 / 400, y2 % 400, DayOfYear(date));
    MonthRecovered(date);
  }

  // ---- Consecutive days have consecutive numbers ----

  function NextDate(date: Date): Date {
    var (y, m, d) := date;
    if d < DaysInMonth(y, m) then (y, m, d + 1)
    else if m < 12 then (y, m + 1, 1)
    else (y + 1, 1, 1)
  }

  lemma NextDaynum(date: Date)
    requires ValidDate(date)
    ensures ValidDate(NextDate(date)) && ToDaynum(NextDate(date)) == ToDaynum(date) + 1
  {
    var (y, m, d) := date;
    hide ToDaynum, Rem, Div;
    ToDaynumIs(date);
    ToDaynumIs(NextDate(date));
    MonthStarts();
    hide MonthStart;
    if m == 2 && d == DaysInMonth(y, m) {
      LeapIs(y);
      YearEnd(y - 1);
    }
  }

  /** From the last day of a shifted year to the first day of the next. */
  lemma YearEnd(y2: int)
    ensures var leap := (y2 + 1) % 400 == 0 || ((y2 + 1) % 4 == 0 && (y2 + 1) % 100 != 0);
      Joined((y2 + 1) / 400, (y2 + 1) % 400, 0)
        == Joined(y2 / 400, y2 % 400, if leap then 365 else 364) + 1
  {
    var era, yoe := y2 / 400, y2 % 400;
    ModShift(y2);
    if yoe == 399 {
      assert (y2 + 1) / 400 == era + 1 && (y2 + 1) % 400 == 0;
    } else {
      assert (y2 + 1) / 400 == era && (y2 + 1) % 400 == yoe + 1;
      QuarterStep(yoe, 4);
      QuarterStep(yoe, 100);
    }
  }

  lemma QuarterStep(x: int, b: int)
    requires b > 1
    ensures (x + 1) / b == x / b + if (x + 1) % b == 0 then 1 else 0
  {
    var q, r := x / b, x % b;
    if r == b - 1 { QuotientIs(x + 1, b, q + 1, 0); } else { QuotientIs(x + 1, b, q, r + 1); }
  }

  // ---- Every day number is a date ----

  function PrevDate(date: Date): Date {
    var (y, m, d) := date;
    if d > 1 then (y, m, d - 1)
    else if m > 1 then (y, m - 1, DaysInMonth(y, m - 1))
    else (y - 1, 12, 31)
  }

  lemma DayZero()
    ensures ToDaynum((1970, 1, 1)) == 0
  {
    ToDaynumIs((1970, 1, 1));
    MonthStarts();
  }

  lemma {:induction false} EveryDaynum(dn: int) returns (date: Date)
    ensures ValidDate(date) && ToDaynum(date) == dn
    decreases Abs(dn)
  {
    hide ToDaynum;
    if dn == 0 {
      date := (1970, 1, 1);
      DayZero();
    } else if dn > 0 {
      var before := EveryDaynum(dn - 1);
      NextDaynum(before);
      date := NextDate(before);
    } else {
      var after := EveryDaynum(dn + 1);
      date := PrevDate(after);
      NextDaynum(date);
    }
  }

  /** The other direction: every integer is the number of exactly the valid date it converts to. */
  lemma DateRoundTrip(dn: int)
    ensures ValidDate(FromDaynum(dn)) && ToDaynum(FromDaynum(dn)) == dn
  {
    var date := EveryDaynum(dn);
    DaynumRoundTrip(date);
  }

  // ---- Day of the week ----

  lemma DowIs(dn: int)
    ensures DowFromDaynum(dn) == (dn + 3) % 7
  {
    DivRem(dn + 3, 7);
    var r := Rem(dn + 3, 7);
    DivFloor(r + 7, 7);
    assert dn + 3 == 7 * Div(dn + 3, 7) + r;
  }

  /** The day number advances the weekday by one, and 1970-01-01 was a Thursday. */
  lemma DowAdvances(dn: int)
    ensures DowFromDaynum(dn + 1) == (DowFromDaynum(dn) + 1) % 7
    ensures DowFromDaynum(ToDaynum((1970, 1, 1))) == 3
  {
    hide DowFromDaynum, ToDaynum;
    DowIs(dn);
    DowIs(dn + 1);
    DayZero();
    DowIs(0);
  }

  // ---- Zeller's congruence ----

  /** The year part of Zeller's sum: with floored division, and as the code has it. */
  function FloorSum(y2: int): int {
    y2 % 100 + y2 % 100 / 4 + y2 / 100 / 4 + 5 * (y2 / 100)
  }

  function TruncSum(y2: int): int {
    var k, j := Rem(y2, 100), Div(y2, 100);
    k + Div(k, 4) + Div(j, 4) + 5 * j
  }

  /** The month term. */
  function MonthTerm(mp: int): int {
    13 * (mp + 4) / 5
  }

  /** Zeller's sum before it is reduced modulo 7. */
  function ZellerRaw(date: Date): int {
    date.2 + MonthTerm(ShiftedMonth(date.1)) + TruncSum(ShiftedYear(date))
  }

  lemma TruncNegative(a: int, b: int)
    requires a >= 0 && b > 0
    ensures Div(-a, b) == -(a / b) && Rem(-a, b) == -(a % b)
  {
    if a == 0 {
      QuotientIs(0, b, 0, 0);
    }
  }

  /** How far the two year parts are apart, by the hundreds and the rest of the year before year zero. */
  lemma SumGap(j0: int, k0: int)
    requires j0 >= 0 && 0 <= k0 < 100 && (j0 > 0 || k0 > 0)
    ensures var y2 := -(100 * j0 + k0);
      FloorSum(y2) - TruncSum(y2) ==
        if k0 > 0 then 119 - (if k0 % 4 == 0 then 0 else 1) else if j0 % 4 == 0 then 0 else -1
  {
    hide Div, Rem;
    var a := 100 * j0 + k0;
    QuotientIs(a, 100, j0, k0);
    TruncNegative(a, 100);
    TruncNegative(k0, 4);
    TruncNegative(j0, 4);
    if k0 > 0 {
      QuotientIs(-a, 100, -j0 - 1, 100 - k0);
    } else {
      QuotientIs(-a, 100, -j0, 0);
    }
  }

  /** For a negative year the two parts are congruent modulo 7 exactly in leap years. */
  lemma GapIsLeap(y2: int)
    requires y2 < 0
    ensures (FloorSum(y2) - TruncSum(y2)) % 7 == 0 <==> Leap(y2)
  {
    hide FloorSum, TruncSum, Leap;
    var j0, k0 := -y2 / 100, -y2 % 100;
    SumGap(j0, k0);
    LeapIs(y2);
    NegativeMultiples(j0, k0);
  }

  lemma NegativeMultiples(j0: int, k0: int)
    requires j0 >= 0 && 0 <= k0 < 100
    ensures var y2 := -(100 * j0 + k0);
      && (y2 % 100 == 0 <==> k0 == 0)
      && (y2 % 4 == 0 <==> k0 % 4 == 0)
      && (k0 == 0 ==> (y2 % 400 == 0 <==> j0 % 4 == 0))
      && (k0 > 0 ==> y2 % 400 != 0)
  {
    NegativeMultiple(100, j0, k0);
    NegativeMultiple(4, 25 * j0 + k0 / 4, k0 % 4);
    NegativeMultiple(400, j0 / 4, 100 * (j0 % 4) + k0);
  }

  lemma NegativeMultiple(b: int, q: int, r: int)
    requires 0 <= r < b
    ensures -(b * q + r) % b == 0 <==> r == 0
  {
    if r == 0 {
      QuotientIs(-(b * q + r), b, -q, 0);
    } else {
      assert -(b * q + r) == b * (-q - 1) + (b - r);
      QuotientIs(-(b * q + r), b, -q - 1, b - r);
    }
  }

  lemma SumsAgree(y2: int)
    requires y2 >= 0
    ensures TruncSum(y2) == FloorSum(y2) >= 0
  {
    hide Div, Rem;
    DivFloor(y2, 100);
    DivFloor(y2 % 100, 4);
    DivFloor(y2 / 100, 4);
  }

  /** The two reductions at the end: they miss the range 0..6 for negative sums that are 1 modulo 7. */
  lemma ReduceIs(h: int)
    ensures Rem(Rem(h, 7) + 5, 7) == if h < 0 && h % 7 == 1 then -1 else (h + 5) % 7
  {
    hide Div, Rem;
    var r := h % 7;
    if h >= 0 {
      DivFloor(h, 7);
      DivFloor(r + 5, 7);
    } else {
      TruncNegative(-h, 7);
      var n := -h % 7;
      assert r == if n == 0 then 0 else 7 - n;
      if n <= 5 {
        DivFloor(5 - n, 7);
      } else {
        TruncNegative(1, 7);
      }
    }
  }

  lemma ZellerReduces(date: Date)
    requires ValidDate(date)
    ensures Zeller(date) == Rem(Rem(ZellerRaw(date), 7) + 5, 7)
  {
    hide Div, Rem, DaysInMonth;
    DivFloor(13 * (ShiftedMonth(date.1) + 4), 5);
  }

  lemma DowIsFloor(date: Date)
    requires ValidDate(date)
    ensures DowFromDaynum(ToDaynum(date))
         == (date.2 + MonthTerm(ShiftedMonth(date.1)) + FloorSum(ShiftedYear(date)) + 5) % 7
  {
    hide ToDaynum, DowFromDaynum, MonthStart, FloorSum;
    var y2 := ShiftedYear(date);
    ToDaynumIs(date);
    DowIs(ToDaynum(date));
    MonthWeekday(ShiftedMonth(date.1));
    WeekdaysAgree(y2, ShiftedMonth(date.1), date.2);
  }

  lemma WeekdaysAgree(y2: int, mp: int, d: int)
    requires (MonthStart(mp) - MonthTerm(mp) - 4) % 7 == 0
    ensures (Joined(y2 / 400, y2 % 400, MonthStart(mp) + d - 1) + 3) % 7
         == (d + MonthTerm(mp) + FloorSum(y2) + 5) % 7
  {
    hide MonthStart, MonthTerm, FloorSum;
    var era, yoe := y2 / 400, y2 % 400;
    var c, k, t := yoe / 100, yoe % 100, MonthTerm(mp);
    var u := MonthStart(mp) - t - 4;
    assert yoe / 4 == 25 * c + k / 4;
    FloorSumIs(y2);
    var a := Joined(era, yoe, MonthStart(mp) + d - 1) + 3;
    var b := d + t + FloorSum(y2) + 5;
    assert u == 7 * (u / 7);
    assert a == era * 146097 + 36524 * c + 365 * k + k / 4 + (u + t + 4) + d - 1 - 719465;
    assert a == 7 * (20868 * era + 5217 * c + 52 * k - 102781 + u / 7) + b;
    ModDrop(7, 20868 * era + 5217 * c + 52 * k - 102781 + u / 7, b);
  }

  lemma FloorSumIs(y2: int)
    ensures var era, c, k := y2 / 400, y2 % 400 / 100, y2 % 400 % 100;
      FloorSum(y2) == k + k / 4 + era + 5 * (4 * era + c)
  {
    var era, c, k := y2 / 400, y2 % 400 / 100, y2 % 400 % 100;
    QuotientIs(y2, 100, 4 * era + c, k);
    QuotientIs(4 * era + c, 4, era, c);
  }

  lemma MonthTerms()
    ensures MonthTerm(0) == 10 && MonthTerm(1) == 13 && MonthTerm(2) == 15 && MonthTerm(3) == 18
    ensures MonthTerm(4) == 20 && MonthTerm(5) == 23 && MonthTerm(6) == 26 && MonthTerm(7) == 28
    ensures MonthTerm(8) == 31 && MonthTerm(9) == 33 && MonthTerm(10) == 36 && MonthTerm(11) == 39
  {
  }

  /** Month lengths and Zeller's month term agree modulo 7. */
  lemma MonthWeekday(mp: int)
    requires 0 <= mp <= 11
    ensures (MonthStart(mp) - MonthTerm(mp) - 4) % 7 == 0
  {
    MonthStarts();
    MonthTerms();
    hide MonthStart, MonthTerm;
  }

  lemma MonthTermPositive(date: Date)
    requires ValidDate(date)
    ensures MonthTerm(ShiftedMonth(date.1)) >= 0
  {
  }

  lemma CongruentSums(a: int, b: int)
    ensures a % 7 == b % 7 <==> (a - b) % 7 == 0
  {
  }

  /** How far `years` before year zero pull Zeller's sum down. */
  function YearWeight(years: nat): nat {
    years % 100 + years % 100 / 4 + years / 100 / 4 + 5 * (years / 100)
  }

  lemma RawBefore(date: Date)
    requires ShiftedYear(date) < 0
    ensures ZellerRaw(date) == date.2 + MonthTerm(ShiftedMonth(date.1)) - YearWeight(-ShiftedYear(date))
  {
    hide Div, Rem, MonthTerm;
    var years := -ShiftedYear(date);
    TruncNegative(years, 100);
    TruncNegative(years % 100, 4);
    TruncNegative(years / 100, 4);
  }

  lemma LastWeekday(h: int)
    ensures h % 7 == 1 <==> (h + 5) % 7 == 6
  {
  }

  /**
   * Zeller's congruence agrees with the day number wherever the shifted year is not negative. Before that its
   * truncated divisions are right exactly in leap years, except on the Sundays so far back that the sum is negative:
   * there the last remainder comes out as -1.
   */
  lemma ZellerAgrees(date: Date)
    requires ValidDate(date)
    ensures var y2, dow := ShiftedYear(date), DowFromDaynum(ToDaynum(date));
      Zeller(date) == dow <==>
        y2 >= 0
        || (Leap(y2) && (dow != 6 || date.2 + MonthTerm(ShiftedMonth(date.1)) >= YearWeight(-y2)))
  {
    var y2, mp := ShiftedYear(date), ShiftedMonth(date.1);
    hide Zeller, ToDaynum, DowFromDaynum, Leap, FloorSum, TruncSum, MonthTerm, Rem, ShiftedYear, ShiftedMonth,
      YearWeight;
    var raw := ZellerRaw(date);
    var exact := date.2 + MonthTerm(mp) + FloorSum(y2);
    ZellerReduces(date);
    ReduceIs(raw);
    DowIsFloor(date);
    LastWeekday(raw);
    if y2 >= 0 {
      SumsAgree(y2);
      assert MonthTerm(mp) >= 0 by { MonthTermPositive(date); }
    } else {
      RawBefore(date);
      hide ZellerRaw;
      GapIsLeap(y2);
      CongruentSums(exact + 5, raw + 5);
      assert exact - raw == FloorSum(y2) - TruncSum(y2) by { GapOfSums(date); }
    }
  }

  lemma GapOfSums(date: Date)
    ensures date.2 + MonthTerm(ShiftedMonth(date.1)) + FloorSum(ShiftedYear(date)) - ZellerRaw(date)
         == FloorSum(ShiftedYear(date)) - TruncSum(ShiftedYear(date))
  {
  }

  /** The first of March of the year -1 is a date where they differ. */
  lemma ZellerFailsBefore()
    ensures var date := (-1, 3, 1);
      ValidDate(date) && Zeller(date) != DowFromDaynum(ToDaynum(date))
  {
    hide ToDaynum, DowFromDaynum, Zeller, Leap;
    ZellerAgrees((-1, 3, 1));
    LeapIs(-1);
  }
}
