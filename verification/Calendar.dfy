/**
 * Hour partitioning of Parquet output (crates/obs-parquet/src/partition.rs): Hinnant's
 * civil-from-days arithmetic against a calendar that simply counts years and months.
 */
module Calendar {

  datatype Date = Date(year: int, month: int, day: int)

  // ---- The reference calendar ----

  predicate IsLeap(y: int) {
    y % 4 == 0 && (y % 100 != 0 || y % 400 == 0)
  }

  function YearLength(y: int): int {
    if IsLeap(y) then 366 else 365
  }

  function MonthLength(y: int, m: int): int
    requires 1 <= m <= 12
  {
    if m == 2 then (if IsLeap(y) then 29 else 28)
    else if m in {4, 6, 9, 11} then 30
    else 31
  }

  predicate ValidDate(d: Date) {
    1970 <= d.year && 1 <= d.month <= 12 && 1 <= d.day <= MonthLength(d.year, d.month)
  }

  /** Days from 1970-01-01 to the first of January of `y`. */
  function YearStart(y: int): int
    requires 1970 <= y
    decreases y
  {
    if y == 1970 then 0 else YearStart(y - 1) + YearLength(y - 1)
  }

  /** Days from the first of January to the first of month `m`. */
  function MonthStart(y: int, m: int): int
    requires 1 <= m <= 12
    decreases m
  {
    if m == 1 then 0 else MonthStart(y, m - 1) + MonthLength(y, m - 1)
  }

  /** Days from 1970-01-01 to `d`. */
  function DayNumber(d: Date): int
    requires ValidDate(d)
  {
    YearStart(d.year) + MonthStart(d.year, d.month) + d.day - 1
  }

  // ---- The source's arithmetic ----

  const I32_MAX := 0x7FFF_FFFF

  /** `x as i32`, and the wrapping result of `i32` addition. */
  function ToI32(x: int): (r: int)
    ensures -I32_MAX - 1 <= r <= I32_MAX
    ensures 0 <= x <= I32_MAX ==> r == x
    ensures (x - r) % 0x1_0000_0000 == 0
  {
    var low := x % 0x1_0000_0000;
    if low <= I32_MAX then low else low - 0x1_0000_0000
  }

  function Yoe(doe: nat): int {
    (doe - doe / 1460 + doe / 36524 - doe / 146096) / 365
  }

  function DaysToYmd(days: nat): Date {
    var shifted := days + 719468;
    var era := shifted / 146097;
    var doe := shifted % 146097;
    var yoe := Yoe(doe);
    var y := ToI32(yoe + era * 400);
    MonthAndDay(y, doe - (365 * yoe + yoe / 4 - yoe / 100))
  }

  function MonthAndDay(y: int, doy: int): Date {
    var mp := (5 * doy + 2) / 153;
    var d := doy - (153 * mp + 2) / 5 + 1;
    var m := if mp < 10 then mp + 3 else mp - 9;
    Date(if m <= 2 then ToI32(y + 1) else y, m, d)
  }

  // ---- Proof: a day of the 400-year era as centuries, olympiads, years and days ----

  /** Years run from March, so the leap day closes its year. */
  ghost predicate Split(doe: nat, c: int, q: int, t: int, u: int) {
    && 0 <= c <= 3 && 0 <= q <= 24 && 0 <= t <= 3 && 0 <= u <= 365
    && (u == 365 ==> t == 3 && (q < 24 || c == 3))
    && doe == 36524 * c + 1461 * q + 365 * t + u
  }

  lemma SplitExists(doe: nat) returns (c: int, q: int, t: int, u: int)
    requires doe < 146097
    ensures Split(doe, c, q, t, u)
  {
    c := if doe == 146096 then 3 else doe / 36524;
    var r := doe - 36524 * c;
    q := if r / 1461 <= 24 then r / 1461 else 24;
    var s := r - 1461 * q;
    t := if s / 365 <= 3 then s / 365 else 3;
    u := s - 365 * t;
  }

  // Division enters the proofs only through quotients and remainders named outright.

  lemma AtLeastOnce(a: int, k: int)
    requires a >= 1 && k > 0
    ensures a * k >= k
  {
    assert (a - 1) * k >= 0;
  }

  lemma DivUnique(n: int, k: int, q: int, r: int)
    requires k > 0 && 0 <= r < k && n == q * k + r
    ensures n / k == q && n % k == r
  {
    var q', r' := n / k, n % k;
    assert n == q' * k + r';
    assert (q - q') * k == r' - r;
    assert (q' - q) * k == r - r';
    if q > q' {
      AtLeastOnce(q - q', k);
    } else if q' > q {
      AtLeastOnce(q' - q, k);
    }
  }

  lemma YoeIsYear(doe: nat, c: int, q: int, t: int, u: int)
    requires doe < 146097 && Split(doe, c, q, t, u)
    ensures Yoe(doe) == 100 * c + 4 * q + t
  {
    var over := 24 * c + q + 365 * t + u;
    var carry := if over >= 1460 then 1 else 0;
    DivUnique(doe, 1460, 25 * c + q + carry, over - 1460 * carry);
    if doe == 146096 {
      DivUnique(doe, 36524, 4, 0);
      DivUnique(doe, 146096, 1, 0);
    } else {
      DivUnique(doe, 36524, c, 1461 * q + 365 * t + u);
      DivUnique(doe, 146096, 0, doe);
    }
    DivUnique(365 * (100 * c + 4 * q + t) + (u - carry), 365, 100 * c + 4 * q + t, u - carry);
  }

  lemma DayOfYear(c: int, q: int, t: int)
    requires 0 <= c <= 3 && 0 <= q <= 24 && 0 <= t <= 3
    ensures var yoe := 100 * c + 4 * q + t;
            365 * yoe + yoe / 4 - yoe / 100 == 36524 * c + 1461 * q + 365 * t
  {
    DivUnique(100 * c + 4 * q + t, 4, 25 * c + q, t);
    DivUnique(100 * c + 4 * q + t, 100, c, 4 * q + t);
  }

  function LeapsTo(y: int): int {
    y / 4 - y / 100 + y / 400
  }

  lemma LeapsStep(y: int)
    ensures LeapsTo(y) - LeapsTo(y - 1) == if IsLeap(y) then 1 else 0
  {
    DivStep(y, 4);
    DivStep(y, 100);
    DivStep(y, 400);
    DivTower(y);
  }

  lemma DivStep(y: int, k: int)
    requires k > 1
    ensures y / k - (y - 1) / k == if y % k == 0 then 1 else 0
  {
    var q, r := y / k, y % k;
    assert y == q * k + r;
    if r == 0 {
      assert y - 1 == (q - 1) * k + (k - 1);
      DivUnique(y - 1, k, q - 1, k - 1);
    } else {
      DivUnique(y - 1, k, q, r - 1);
    }
  }

  lemma DivTower(y: int)
    ensures y % 100 == 0 ==> y % 4 == 0
    ensures y % 400 == 0 ==> y % 100 == 0
  {
    if y % 100 == 0 {
      DivUnique(y, 4, 25 * (y / 100), 0);
    }
    if y % 400 == 0 {
      DivUnique(y, 100, 4 * (y / 400), 0);
    }
  }

  lemma {:induction false} YearStartClosed(y: int)
    requires 1970 <= y
    ensures YearStart(y) == 365 * (y - 1970) + LeapsTo(y - 1) - 477
    decreases y
  {
    hide LeapsTo, IsLeap;
    if y == 1970 {
      LeapsBefore1970();
    } else {
      YearStartClosed(y - 1);
      LeapsStep(y - 1);
    }
  }

  lemma LeapsBefore1970()
    ensures LeapsTo(1968) == 477 && LeapsTo(1969) == 477
  {}

  /** Days before month `m` in a common year. */
  function Before(m: int): int {
    if m <= 1 then 0 else if m == 2 then 31 else if m == 3 then 59 else if m == 4 then 90 else if m == 5 then 120
    else if m == 6 then 151 else if m == 7 then 181 else if m == 8 then 212 else if m == 9 then 243
    else if m == 10 then 273 else if m == 11 then 304 else 334
  }

  lemma {:induction false} MonthStarts(y: int, m: int)
    requires 1 <= m <= 12
    ensures MonthStart(y, m) == Before(m) + if m > 2 && IsLeap(y) then 1 else 0
    ensures 0 <= MonthStart(y, m) && MonthStart(y, m) + MonthLength(y, m) <= YearLength(y)
    decreases m
  {
    hide IsLeap;
    if m > 1 {
      MonthStarts(y, m - 1);
    }
  }

  /** Days before month `mp`, counted from March. */
  function BeforeMarch(mp: int): int {
    if mp <= 0 then 0 else if mp == 1 then 31 else if mp == 2 then 61 else if mp == 3 then 92 else if mp == 4 then 122
    else if mp == 5 then 153 else if mp == 6 then 184 else if mp == 7 then 214 else if mp == 8 then 245
    else if mp == 9 then 275 else if mp == 10 then 306 else if mp == 11 then 337 else 367
  }

  /** The two divisions of the source pick the month from March and the days before it. */
  lemma MarchDivisions(u: int)
    requires 0 <= u <= 365
    ensures var mp := (5 * u + 2) / 153;
            && 0 <= mp <= 11 && (153 * mp + 2) / 5 == BeforeMarch(mp)
            && BeforeMarch(mp) <= u < BeforeMarch(mp + 1)
  {
    var mp := (5 * u + 2) / 153;
    var r := 5 * u + 2 - 153 * mp;
    assert 0 <= r < 153;
    assert 0 <= mp <= 11;
    DivUnique(153 * mp + 2, 5, BeforeMarch(mp), 153 * mp + 2 - 5 * BeforeMarch(mp));
  }

  /** Month `mp` counted from March, and the day in it, of day `u` of a March year. */
  lemma MarchMonth(y: int, u: int)
    requires 0 <= u <= 365
    requires u == 365 ==> IsLeap(y + 1)
    ensures var mp := (5 * u + 2) / 153;
            var d := u - (153 * mp + 2) / 5 + 1;
            && 0 <= mp <= 11
            && (mp < 10 ==> 1 <= d <= MonthLength(y, mp + 3)
                            && MonthStart(y, mp + 3) + d - 1 == 59 + (if IsLeap(y) then 1 else 0) + u)
            && (mp >= 10 ==> 1 <= d <= MonthLength(y + 1, mp - 9)
                             && MonthStart(y + 1, mp - 9) + d - 1 == u - 306)
  {
    MarchDivisions(u);
    InMonth(y, u, (5 * u + 2) / 153);
  }

  lemma InMonth(y: int, u: int, mp: int)
    requires 0 <= u <= 365 && 0 <= mp <= 11 && BeforeMarch(mp) <= u < BeforeMarch(mp + 1)
    requires u == 365 ==> IsLeap(y + 1)
    ensures mp < 10 ==> u - BeforeMarch(mp) + 1 <= MonthLength(y, mp + 3)
                        && MonthStart(y, mp + 3) + u - BeforeMarch(mp) == 59 + (if IsLeap(y) then 1 else 0) + u
    ensures mp >= 10 ==> u - BeforeMarch(mp) + 1 <= MonthLength(y + 1, mp - 9)
                         && MonthStart(y + 1, mp - 9) + u - BeforeMarch(mp) == u - 306
  {
    hide IsLeap, MonthStart;
    if mp < 10 {
      MonthStarts(y, mp + 3);
    } else {
      MonthStarts(y + 1, mp - 9);
    }
  }

  /** The date of day `u` of the year that begins in March of `y`. */
  ghost function MarchDate(y: int, u: int): Date {
    var mp := (5 * u + 2) / 153;
    var d := u - (153 * mp + 2) / 5 + 1;
    if mp < 10 then Date(y, mp + 3, d) else Date(y + 1, mp - 9, d)
  }

  lemma MarchDateCorrect(y: int, u: int, days: nat)
    requires 0 <= u <= 365 && (u == 365 ==> IsLeap(y + 1))
    requires days + 719468 == 365 * y + LeapsTo(y) + u
    ensures ValidDate(MarchDate(y, u)) && DayNumber(MarchDate(y, u)) == days
  {
    hide MonthStart, MonthLength, IsLeap, LeapsTo, YearStart;
    MarchMonth(y, u);
    EarlyYear(y, u, days);
    if (5 * u + 2) / 153 < 10 {
      YearStartClosed(y);
      LeapsStep(y);
    } else {
      YearStartClosed(y + 1);
    }
  }

  /** The arithmetic of `DaysToYmd` before the year is narrowed to `i32`. */
  ghost function WideYmd(days: nat): Date {
    MarchDate(WideYear(days), WideDay(days))
  }

  ghost function WideDay(days: nat): int {
    var doe := (days + 719468) % 146097;
    doe - (365 * Yoe(doe) + Yoe(doe) / 4 - Yoe(doe) / 100)
  }

  ghost function WideYear(days: nat): int {
    Yoe((days + 719468) % 146097) + (days + 719468) / 146097 * 400
  }

  lemma LastDay(era: int, c: int, q: int, t: int, u: int)
    requires u == 365 ==> t == 3 && (q < 24 || c == 3)
    requires 0 <= c <= 3 && 0 <= q <= 24 && 0 <= t <= 3
    ensures u == 365 ==> IsLeap(400 * era + 100 * c + 4 * q + t + 1)
  {
    if u == 365 {
      var y := 400 * era + 100 * c + 4 * q + 4;
      DivUnique(y, 4, 100 * era + 25 * c + q + 1, 0);
      if q < 24 {
        DivUnique(y, 100, 4 * era + c, 4 * q + 4);
      } else {
        DivUnique(y, 400, era + 1, 0);
      }
    }
  }

  lemma LeapsOfSplit(era: int, c: int, q: int, t: int)
    requires 0 <= c <= 3 && 0 <= q <= 24 && 0 <= t <= 3
    ensures LeapsTo(400 * era + 100 * c + 4 * q + t) == 97 * era + 24 * c + q
  {
    var y := 400 * era + 100 * c + 4 * q + t;
    DivUnique(y, 4, 100 * era + 25 * c + q, t);
    DivUnique(y, 100, 4 * era + c, 4 * q + t);
    DivUnique(y, 400, era, 100 * c + 4 * q + t);
  }

  lemma EraOf(days: nat) returns (era: nat, doe: nat)
    ensures era == (days + 719468) / 146097 && doe == (days + 719468) % 146097
    ensures days + 719468 == 146097 * era + doe && doe < 146097
  {
    era, doe := (days + 719468) / 146097, (days + 719468) % 146097;
  }

  lemma WideOf(days: nat, era: nat, doe: nat, c: int, q: int, t: int, u: int)
    requires era == (days + 719468) / 146097 && doe == (days + 719468) % 146097
    requires doe < 146097 && Split(doe, c, q, t, u)
    ensures WideYear(days) == 400 * era + 100 * c + 4 * q + t && WideDay(days) == u
  {
    hide Yoe;
    YoeIsYear(doe, c, q, t, u);
    DayOfYear(c, q, t);
  }

  lemma Balance(shifted: int, era: int, doe: int, c: int, q: int, t: int, u: int, leaps: int)
    requires shifted == 146097 * era + doe && doe == 36524 * c + 1461 * q + 365 * t + u && leaps == 97 * era + 24 * c + q
    ensures shifted == 365 * (400 * era + 100 * c + 4 * q + t) + leaps + u
  {}

  lemma MarchSplit(days: nat) returns (era: nat, doe: nat, c: int, q: int, t: int, u: int)
    ensures days + 719468 == 146097 * era + doe && Split(doe, c, q, t, u)
    ensures WideYear(days) == 400 * era + 100 * c + 4 * q + t && WideDay(days) == u
  {
    hide Split, WideYear, WideDay;
    era, doe := EraOf(days);
    c, q, t, u := SplitExists(doe);
    WideOf(days, era, doe, c, q, t, u);
  }

  lemma MarchYear(days: nat) returns (y: int, u: int)
    ensures y == WideYear(days) && u == WideDay(days)
    ensures 0 <= u <= 365 && (u == 365 ==> IsLeap(y + 1))
    ensures days + 719468 == 365 * y + LeapsTo(y) + u
  {
    hide LeapsTo, IsLeap, WideYear, WideDay;
    var era, doe, c, q, t;
    era, doe, c, q, t, u := MarchSplit(days);
    y := 400 * era + 100 * c + 4 * q + t;
    LastDay(era, c, q, t, u);
    LeapsOfSplit(era, c, q, t);
    Balance(days + 719468, era, doe, c, q, t, u, LeapsTo(y));
  }

  lemma WideCorrect(days: nat)
    ensures ValidDate(WideYmd(days)) && DayNumber(WideYmd(days)) == days
    ensures 0 <= WideYear(days) <= WideYmd(days).year
  {
    hide WideDay, WideYear, LeapsTo, IsLeap;
    var y, u := MarchYear(days);
    MarchDateCorrect(y, u, days);
    EarlyYear(y, u, days);
  }

  lemma NarrowYmd(days: nat)
    ensures 0 <= WideYear(days) <= WideYmd(days).year <= I32_MAX ==> DaysToYmd(days) == WideYmd(days)
  {
    var y, u := MarchYear(days);
    hide Yoe, LeapsTo, IsLeap, MonthAndDay, MarchDate;
    if 0 <= y && MarchDate(y, u).year <= I32_MAX {
      MonthAndDayIsMarch(y, u);
    }
  }

  lemma MonthAndDayIsMarch(y: int, u: int)
    requires 0 <= u <= 365 && 0 <= y && MarchDate(y, u).year <= I32_MAX
    ensures MonthAndDay(y, u) == MarchDate(y, u)
  {
    assert 0 <= (5 * u + 2) / 153 <= 11;
  }

  lemma EarlyYear(y: int, u: int, days: nat)
    requires 0 <= u <= 365 && days + 719468 == 365 * y + LeapsTo(y) + u
    ensures 1969 <= y && (y == 1969 ==> u >= 306)
  {
    hide LeapsTo;
    LeapsBefore1970();
    if y <= 1968 {
      LeapsMonotone(y, 1968);
    }
  }

  lemma {:induction false} LeapsMonotone(x: int, y: int)
    requires x <= y
    ensures LeapsTo(x) <= LeapsTo(y)
    decreases y - x
  {
    if x < y {
      LeapsStep(y);
      LeapsMonotone(x, y - 1);
    }
  }

  // ---- Results on dates ----

  lemma {:induction false} YearsApart(x: int, y: int)
    requires 1970 <= x < y
    ensures YearStart(x) + YearLength(x) <= YearStart(y)
    decreases y
  {
    if x < y - 1 {
      YearsApart(x, y - 1);
    }
  }

  lemma {:induction false} MonthsApart(y: int, l: int, m: int)
    requires 1 <= l < m <= 12
    ensures MonthStart(y, l) + MonthLength(y, l) <= MonthStart(y, m)
    decreases m
  {
    if l < m - 1 {
      MonthsApart(y, l, m - 1);
    }
  }

  /** Distinct dates have distinct day numbers. */
  lemma DayNumberInjective(a: Date, b: Date)
    requires ValidDate(a) && ValidDate(b) && DayNumber(a) == DayNumber(b)
    ensures a == b
  {
    MonthStarts(a.year, a.month);
    MonthStarts(b.year, b.month);
    if a.year < b.year {
      YearsApart(a.year, b.year);
    } else if b.year < a.year {
      YearsApart(b.year, a.year);
    } else if a.month < b.month {
      MonthsApart(a.year, a.month, b.month);
    } else if b.month < a.month {
      MonthsApart(a.year, b.month, a.month);
    }
  }

  ghost predicate YearFits(days: nat) {
    days < YearStart(I32_MAX + 1)
  }

  lemma NarrowBound(days: nat)
    ensures DaysToYmd(days).year <= I32_MAX
  {}

  /** The result is the calendar date of day `days` exactly when the year fits in an `i32`. */
  lemma DaysToYmdCorrect(days: nat)
    ensures YearFits(days) <==> ValidDate(DaysToYmd(days)) && DayNumber(DaysToYmd(days)) == days
  {
    hide DaysToYmd, WideYmd, WideYear, MonthStart, MonthLength;
    WideCorrect(days);
    NarrowBound(days);
    var wide := WideYmd(days);
    MonthStarts(wide.year, wide.month);
    if YearFits(days) {
      if wide.year > I32_MAX + 1 {
        YearsApart(I32_MAX + 1, wide.year);
      }
      NarrowYmd(days);
    } else if ValidDate(DaysToYmd(days)) && DayNumber(DaysToYmd(days)) == days {
      var got := DaysToYmd(days);
      MonthStarts(got.year, got.month);
      YearsApart(got.year, I32_MAX + 1);
    }
  }

  /** Every date up to year 2147483647 comes back from its own day number. */
  lemma DateRoundTrip(date: Date)
    requires ValidDate(date) && date.year <= I32_MAX
    ensures DayNumber(date) >= 0 && DaysToYmd(DayNumber(date)) == date
  {
    MonthStarts(date.year, date.month);
    YearStartClosed(date.year);
    LeapsMonotone(1969, date.year - 1);
    YearsApart(date.year, I32_MAX + 1);
    var days := DayNumber(date);
    DaysToYmdCorrect(days);
    DayNumberInjective(DaysToYmd(days), date);
  }

  // ---- Rendering and hour buckets ----

  function Digit(n: int): char
    requires 0 <= n <= 9
  {
    ('0' as int + n) as char
  }

  function Decimal(n: nat): (s: string)
    ensures |s| >= 1 && (n >= 10 ==> |s| >= 2) && (n < 10 ==> |s| == 1) && (n < 100 ==> |s| <= 2)
  {
    if n < 10 then [Digit(n)] else Decimal(n / 10) + [Digit(n % 10)]
  }

  function Zeros(n: nat): (s: string)
    ensures |s| == n
  {
    seq(n, _ => '0')
  }

  /** `{n:0width}`: a minus sign counts towards the width. */
  function Padded(n: int, width: nat): string {
    var digits := Decimal(if n < 0 then -n else n);
    var sign := if n < 0 then "-" else "";
    var used := |sign| + |digits|;
    sign + Zeros(if used < width then width - used else 0) + digits
  }

  datatype DateHour = DateHour(date: string, hour: int)

  function FormatDateHour(secs: int): DateHour {
    var s := if secs >= 0 then secs else 0;
    var d := DaysToYmd(s / 86_400);
    DateHour(Padded(d.year, 4) + "-" + Padded(d.month, 2) + "-" + Padded(d.day, 2), s % 86_400 / 3_600)
  }

  /** The number a digit string spells; characters other than digits are worth nothing here. */
  function Spelled(s: string): int {
    if s == [] then 0
    else 10 * Spelled(s[..|s| - 1]) + (if '0' <= s[|s| - 1] <= '9' then s[|s| - 1] as int - '0' as int else 0)
  }

  lemma {:induction false} SpelledDecimal(zeros: nat, n: nat)
    ensures Spelled(Zeros(zeros) + Decimal(n)) == n
    decreases n
  {
    var s := Zeros(zeros) + Decimal(n);
    if n < 10 {
      assert s[..|s| - 1] == Zeros(zeros);
      SpelledZeros(zeros);
    } else {
      assert s[..|s| - 1] == Zeros(zeros) + Decimal(n / 10);
      SpelledDecimal(zeros, n / 10);
    }
  }

  lemma {:induction false} SpelledZeros(n: nat)
    ensures Spelled(Zeros(n)) == 0
  {
    if n > 0 {
      assert Zeros(n)[..n - 1] == Zeros(n - 1);
      SpelledZeros(n - 1);
    }
  }

  lemma SpelledPadded(n: nat, width: nat)
    ensures Spelled(Padded(n, width)) == n
    ensures n < 100 && width == 2 ==> |Padded(n, width)| == 2
  {
    var used := |Decimal(n)|;
    var zeros := if used < width then width - used else 0;
    SpelledDecimal(zeros, n);
    assert Padded(n, width) == Zeros(zeros) + Decimal(n);
  }

  /** The rendered date determines the date. */
  lemma RenderedInjective(a: Date, b: Date)
    requires ValidDate(a) && ValidDate(b)
    requires Padded(a.year, 4) + "-" + Padded(a.month, 2) + "-" + Padded(a.day, 2)
          == Padded(b.year, 4) + "-" + Padded(b.month, 2) + "-" + Padded(b.day, 2)
    ensures a == b
  {
    var ya, ma, da := Padded(a.year, 4), Padded(a.month, 2), Padded(a.day, 2);
    var yb, mb, db := Padded(b.year, 4), Padded(b.month, 2), Padded(b.day, 2);
    SpelledPadded(a.year, 4);
    SpelledPadded(b.year, 4);
    SpelledPadded(a.month, 2);
    SpelledPadded(b.month, 2);
    SpelledPadded(a.day, 2);
    SpelledPadded(b.day, 2);
    hide Padded;
    DashedInjective(ya, ma, da, yb, mb, db);
  }

  lemma DashedInjective(y: string, m: string, d: string, y': string, m': string, d': string)
    requires |m| == |m'| == |d| == |d'| == 2
    requires y + "-" + m + "-" + d == y' + "-" + m' + "-" + d'
    ensures y == y' && m == m' && d == d'
  {
    TailInjective(y + "-" + m + "-", d, y' + "-" + m' + "-", d');
    TailInjective(y + "-" + m, "-", y' + "-" + m', "-");
    TailInjective(y + "-", m, y' + "-", m');
    TailInjective(y, "-", y', "-");
  }

  lemma TailInjective(a: string, b: string, a': string, b': string)
    requires |b| == |b'| && a + b == a' + b'
    ensures a == a' && b == b'
  {
    var n := |a|;
    assert |a'| == n;
    assert a == (a + b)[..n] == (a' + b')[..n] == a';
    assert b == (a + b)[n..] == (a' + b')[n..] == b';
  }

  function Clamped(secs: int): nat {
    if secs >= 0 then secs else 0
  }

  lemma HourSplit(s: nat)
    ensures s / 3_600 == 24 * (s / 86_400) + s % 86_400 / 3_600 && 0 <= s % 86_400 / 3_600 < 24
  {
    var d, r := s / 86_400, s % 86_400;
    var h, m := r / 3_600, r % 3_600;
    assert s == 86_400 * d + r && r == 3_600 * h + m;
    assert 0 <= r < 86_400 && 0 <= m < 3_600;
    DivUnique(s, 3_600, 24 * d + h, m);
  }

  lemma SameDayAndHour(a: int, h: int, b: int, k: int)
    requires 0 <= h < 24 && 0 <= k < 24
    ensures 24 * a + h == 24 * b + k <==> a == b && h == k
  {}

  lemma FormattedAlike(s: int, t: int)
    requires YearFits(Clamped(s) / 86_400) && YearFits(Clamped(t) / 86_400)
    ensures FormatDateHour(s) == FormatDateHour(t)
       <==> Clamped(s) / 86_400 == Clamped(t) / 86_400 && Clamped(s) % 86_400 / 3_600 == Clamped(t) % 86_400 / 3_600
  {
    hide DaysToYmd, Padded, YearFits, ValidDate, DayNumber;
    var ds, dt := Clamped(s) / 86_400, Clamped(t) / 86_400;
    DaysToYmdCorrect(ds);
    DaysToYmdCorrect(dt);
    if FormatDateHour(s) == FormatDateHour(t) {
      RenderedInjective(DaysToYmd(ds), DaysToYmd(dt));
    }
  }

  /** Two timestamps share a date and hour exactly when they share a 3600-second bucket. */
  lemma HourBuckets(s: int, t: int)
    requires YearFits(Clamped(s) / 86_400) && YearFits(Clamped(t) / 86_400)
    ensures FormatDateHour(s) == FormatDateHour(t) <==> Clamped(s) / 3_600 == Clamped(t) / 3_600
  {
    hide FormatDateHour, YearFits, Clamped;
    var m, n := Clamped(s), Clamped(t);
    FormattedAlike(s, t);
    HourSplit(m);
    HourSplit(n);
    SameDayAndHour(m / 86_400, m % 86_400 / 3_600, n / 86_400, n % 86_400 / 3_600);
  }

  predicate AllDigits(s: string) {
    forall i :: 0 <= i < |s| ==> '0' <= s[i] <= '9'
  }

  lemma {:induction false} DecimalDigits(n: nat)
    ensures AllDigits(Decimal(n)) && (n < 10000 ==> |Decimal(n)| <= 4)
    decreases n
  {
    if n >= 10 {
      DecimalDigits(n / 10);
      if n < 10000 { DecimalLength(n); }
    }
  }

  lemma DecimalLength(n: nat)
    requires 10 <= n < 10000
    ensures |Decimal(n)| <= 4
  {
    if n >= 100 {
      if n >= 1000 { assert |Decimal(n / 10 / 10)| <= 2; }
      assert |Decimal(n / 10)| == |Decimal(n / 10 / 10)| + 1;
    }
    assert |Decimal(n)| == |Decimal(n / 10)| + 1;
  }

  /** A number is written in digits, to the full width and no wider than it must be. */
  lemma PaddedText(n: nat, width: nat)
    ensures AllDigits(Padded(n, width)) && Spelled(Padded(n, width)) == n && |Padded(n, width)| >= width
    ensures width == 2 && n < 100 ==> |Padded(n, width)| == 2
    ensures width == 4 && n < 10000 ==> |Padded(n, width)| == 4
  {
    DecimalDigits(n);
    SpelledPadded(n, width);
  }

  /**
   * The date text and hour of a time whose year fits: year, month and day of a valid date in that
   * order, in digits, and the hour of that day, together counting exactly the hours since 1970.
   */
  lemma DateHourExact(s: int) returns (d: Date, y: string, m: string, day: string)
    requires YearFits(Clamped(s) / 86_400)
    ensures ValidDate(d) && 0 <= FormatDateHour(s).hour < 24
    ensures 24 * DayNumber(d) + FormatDateHour(s).hour == Clamped(s) / 3_600
    ensures FormatDateHour(s).date == y + "-" + m + "-" + day
    ensures AllDigits(y) && AllDigits(m) && AllDigits(day) && |y| >= 4 && |m| == 2 && |day| == 2 && (d.year < 10000 ==> |y| == 4)
    ensures Spelled(y) == d.year && Spelled(m) == d.month && Spelled(day) == d.day
  {
    hide DaysToYmd, Padded, YearFits, DayNumber, AllDigits, Spelled;
    d := DaysToYmd(Clamped(s) / 86_400);
    DaysToYmdCorrect(Clamped(s) / 86_400);
    HourSplit(Clamped(s));
    ShortMonth(d);
    y, m, day := Padded(d.year, 4), Padded(d.month, 2), Padded(d.day, 2);
    PaddedText(d.year, 4);
    PaddedText(d.month, 2);
    PaddedText(d.day, 2);
  }

  lemma ShortMonth(d: Date)
    requires ValidDate(d)
    ensures 1 <= d.day <= 31
  {}

  // ---- Partition keys ----

  datatype PartitionKey = PartitionKey(service: string, date: string, hour: int)

  const NANOS := 1_000_000_000
  const U64_SPAN := 0x1_0000_0000_0000_0000

  function KeyOf(service: string, tsNs: nat, defaultService: string): PartitionKey {
    var at := FormatDateHour(tsNs / NANOS);
    PartitionKey(if service == "" then defaultService else service, at.date, at.hour)
  }

  /** No `u64` nanosecond timestamp leaves the range of `days_to_ymd`. */
  lemma TimestampFits(tsNs: nat)
    requires tsNs < U64_SPAN
    ensures YearFits(Clamped(tsNs / NANOS) / 86_400)
  {
    YearStartClosed(I32_MAX + 1);
    LeapsMonotone(1969, I32_MAX);
  }

  lemma HoursOfNanos(t: nat)
    ensures t / NANOS / 3_600 == t / (3_600 * NANOS)
  {}

  /** Rows share a directory exactly when they share the effective service and the UTC hour. */
  lemma SamePartition(s1: string, t1: nat, s2: string, t2: nat, defaultService: string)
    requires t1 < U64_SPAN && t2 < U64_SPAN
    ensures KeyOf(s1, t1, defaultService) == KeyOf(s2, t2, defaultService)
       <==> (if s1 == "" then defaultService else s1) == (if s2 == "" then defaultService else s2)
            && t1 / (3_600 * NANOS) == t2 / (3_600 * NANOS)
  {
    hide FormatDateHour, YearFits;
    TimestampFits(t1);
    TimestampFits(t2);
    HourBuckets(t1 / NANOS, t2 / NANOS);
    HoursOfNanos(t1);
    HoursOfNanos(t2);
  }

  /** The partition key of an envelope: its service or the default, and the date and hour of its timestamp. */
  lemma KeyExact(service: string, tsNs: nat, defaultService: string) returns (d: Date, y: string, m: string, day: string)
    requires tsNs < U64_SPAN
    ensures var k := KeyOf(service, tsNs, defaultService);
            && (if service == "" then k.service == defaultService else k.service == service)
            && ValidDate(d) && 0 <= k.hour < 24 && 24 * DayNumber(d) + k.hour == tsNs / 3_600_000_000_000
            && k.date == y + "-" + m + "-" + day && |y| >= 4 && |m| == 2 && |day| == 2
            && AllDigits(y) && AllDigits(m) && AllDigits(day)
            && Spelled(y) == d.year && Spelled(m) == d.month && Spelled(day) == d.day
  {
    hide FormatDateHour, YearFits, DayNumber, AllDigits, Spelled, ValidDate;
    TimestampFits(tsNs);
    HoursOfNanos(tsNs);
    d, y, m, day := DateHourExact(tsNs / NANOS);
  }
}
