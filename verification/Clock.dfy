/** The clock module's calendar conversions and the resynchronisation of the
    millisecond counter with the real-time clock. */
module Clock {

  const EPOCH_YEAR: int := 2000
  const SECONDS_PER_DAY: int := 86400

  /** The source's `datetime`: six C integers. */
  datatype Datetime = Datetime(day: int, month: int, year: int, hour: int, minute: int, second: int)

  /** Unsigned 64-bit wrap-around. */
  function U64(x: int): (r: int) {
    x % 0x1_0000_0000_0000_0000
  }

  predicate IsLeapYear(year: int) {
    year % 4 == 0 && (year % 100 != 0 || year % 400 == 0)
  }

  function DaysInYear(year: int): int {
    if IsLeapYear(year) then 366 else 365
  }

  /** The table of month lengths, which has an empty month 0 and no leap day. */
  function TableDays(month: int): int
    requires 0 <= month <= 12
  {
    [0, 31, 28, 31, 30, 31, 30, 31, 31, 30, 31, 30, 31][month]
  }

  function DaysInMonth(month: int, year: int): int
    requires 0 <= month <= 12
  {
    if month == 2 && IsLeapYear(year) then TableDays(month) + 1 else TableDays(month)
  }

  // ---------- what a datetime means ----------

  /** Days from the epoch year's first day to the first day of `year`. */
  function DaysBeforeYear(year: int): int
    decreases year
  {
    if year <= EPOCH_YEAR then 0 else DaysBeforeYear(year - 1) + DaysInYear(year - 1)
  }

  /** Days from the first day of `year` to the first day of `month`. */
  function DaysBeforeMonth(month: int, year: int): int
    requires 0 <= month <= 13
    decreases month
  {
    if month == 0 then 0 else DaysBeforeMonth(month - 1, year) + DaysInMonth(month - 1, year)
  }

  /** Seconds from the epoch to `dt`, with days counted from 0 as the conversions do. */
  function EpochSeconds(dt: Datetime): int
    requires 0 <= dt.month <= 13
  {
    (DaysBeforeYear(dt.year) + DaysBeforeMonth(dt.month, dt.year) + dt.day) * SECONDS_PER_DAY
    + dt.hour * 3600 + dt.minute * 60 + dt.second
  }

  /** The datetimes that the conversion from the epoch produces: every field in
      range, the day as an index from 0. */
  predicate Normal(dt: Datetime) {
    && dt.year >= EPOCH_YEAR && 1 <= dt.month <= 12 && 0 <= dt.day < DaysInMonth(dt.month, dt.year)
    && 0 <= dt.hour < 24 && 0 <= dt.minute < 60 && 0 <= dt.second < 60
  }

  /** What the clock chip reports: the same, but with days numbered from 1. */
  predicate RtcReading(dt: Datetime) {
    && dt.year >= EPOCH_YEAR && 1 <= dt.month <= 12 && 1 <= dt.day <= DaysInMonth(dt.month, dt.year)
    && 0 <= dt.hour < 24 && 0 <= dt.minute < 60 && 0 <= dt.second < 60
  }

  /** The twelve months of a year make up its days. */
  lemma MonthsFillYear(year: int)
    ensures DaysBeforeMonth(13, year) == DaysInYear(year)
  {
    assert DaysBeforeMonth(3, year) == 59 + if IsLeapYear(year) then 1 else 0 by {
      assert DaysBeforeMonth(1, year) == 0;
    }
    assert DaysBeforeMonth(6, year) == DaysBeforeMonth(3, year) + 92 by {
      assert DaysBeforeMonth(5, year) == DaysBeforeMonth(3, year) + 61;
    }
    assert DaysBeforeMonth(9, year) == DaysBeforeMonth(6, year) + 92 by {
      assert DaysBeforeMonth(8, year) == DaysBeforeMonth(6, year) + 61;
    }
    assert DaysBeforeMonth(12, year) == DaysBeforeMonth(9, year) + 91 by {
      assert DaysBeforeMonth(11, year) == DaysBeforeMonth(9, year) + 61;
    }
  }

  lemma {:induction false} DaysBeforeYearMonotone(y: int, z: int)
    requires y < z && EPOCH_YEAR <= y
    ensures DaysBeforeYear(y) + DaysInYear(y) <= DaysBeforeYear(z)
    decreases z
  {
    if y + 1 < z {
      DaysBeforeYearMonotone(y, z - 1);
    }
  }

  lemma {:induction false} DaysBeforeMonthMonotone(m: int, n: int, year: int)
    requires 0 <= m < n <= 13
    ensures DaysBeforeMonth(m, year) + DaysInMonth(m, year) <= DaysBeforeMonth(n, year)
    decreases n
  {
    if m + 1 < n {
      DaysBeforeMonthMonotone(m, n - 1, year);
    }
  }

  /** The day number within the epoch fixes year, month and day. */
  lemma SameDay(a: Datetime, b: Datetime)
    requires Normal(a) && Normal(b)
    requires DaysBeforeYear(a.year) + DaysBeforeMonth(a.month, a.year) + a.day
          == DaysBeforeYear(b.year) + DaysBeforeMonth(b.month, b.year) + b.day
    ensures a.year == b.year && a.month == b.month && a.day == b.day
  {
    WithinYear(a);
    WithinYear(b);
    if a.year < b.year {
      DaysBeforeYearMonotone(a.year, b.year);
    } else if b.year < a.year {
      DaysBeforeYearMonotone(b.year, a.year);
    } else if a.month < b.month {
      DaysBeforeMonthMonotone(a.month, b.month, a.year);
    } else if b.month < a.month {
      DaysBeforeMonthMonotone(b.month, a.month, a.year);
    }
  }

  lemma WithinYear(a: Datetime)
    requires Normal(a)
    ensures 0 <= DaysBeforeMonth(a.month, a.year) + a.day < DaysInYear(a.year)
  {
    DaysBeforeMonthMonotone(a.month, 13, a.year);
    MonthsFillYear(a.year);
    DaysBeforeMonthMonotone(0, a.month, a.year);
  }

  /** No two normal datetimes share a second: the conversion to the epoch is injective. */
  lemma EpochSecondsInjective(a: Datetime, b: Datetime)
    requires Normal(a) && Normal(b) && EpochSeconds(a) == EpochSeconds(b)
    ensures a == b
  {
    SameDay(a, b);
  }

  // ---------- the two conversions ----------

  lemma U64Add(x: int, y: int)
    ensures U64(U64(x) + y) == U64(x + y)
  {
  }

  lemma U64Shift(a: int, k: int)
    ensures U64(a + k * 0x1_0000_0000_0000_0000) == U64(a)
  {
  }

  lemma U64Scale(x: int)
    ensures U64(U64(x) * 1000) == U64(x * 1000)
  {
    var q := x / 0x1_0000_0000_0000_0000;
    var r := U64(x);
    assert x == q * 0x1_0000_0000_0000_0000 + r;
    hide U64;
    U64Shift(r * 1000, q * 1000);
  }

  /** `ret += x` in unsigned 64-bit arithmetic. */
  method Accumulate(ret: int, x: int, ghost sum: int) returns (r: int)
    requires ret == U64(sum)
    ensures r == U64(sum + x)
  {
    U64Add(sum, x);
    r := U64(ret + x);
  }

  /** The loop over the months of the table. */
  method AccumulateMonths(start: int, month: int, ghost sum: int) returns (ret: int)
    requires 0 <= month <= 13 && start == U64(sum)
    ensures ret == U64(sum + TableDaysBefore(month) * SECONDS_PER_DAY)
  {
    hide U64;
    ret := start;
    for m := 0 to month
      invariant ret == U64(sum + TableDaysBefore(m) * SECONDS_PER_DAY)
    {
      ret := Accumulate(ret, TableDays(m) * SECONDS_PER_DAY, sum + TableDaysBefore(m) * SECONDS_PER_DAY);
    }
  }

  function TableDaysBefore(month: int): int
    requires 0 <= month <= 13
  {
    if month == 0 then 0 else TableDaysBefore(month - 1) + TableDays(month - 1)
  }

  /** The leap day that the table leaves out is the one day added at the end. */
  lemma {:induction false} TableDaysBeforeMonth(month: int, year: int)
    requires 0 <= month <= 13
    ensures DaysBeforeMonth(month, year) == TableDaysBefore(month) + if IsLeapYear(year) && month > 2 then 1 else 0
  {
    if month > 0 {
      TableDaysBeforeMonth(month - 1, year);
    }
  }

  /** The loop over the years since the epoch. */
  method AccumulateYears(start: int, year: int, ghost sum: int) returns (ret: int)
    requires start == U64(sum)
    ensures ret == U64(sum + DaysBeforeYear(year) * SECONDS_PER_DAY)
  {
    hide U64;
    ret := start;
    var y := EPOCH_YEAR;
    while y < year
      invariant EPOCH_YEAR <= y && (y <= year || y == EPOCH_YEAR)
      invariant ret == U64(sum + DaysBeforeYear(y) * SECONDS_PER_DAY)
    {
      ret := Accumulate(ret, DaysInYear(y) * SECONDS_PER_DAY, sum + DaysBeforeYear(y) * SECONDS_PER_DAY);
      y := y + 1;
    }
  }

  /** `datetime2epoch`: milliseconds, in wrapping 64-bit arithmetic. The month
      indexes the table, so it may be at most one past the last month. */
  method DatetimeToEpoch(dt: Datetime) returns (ret: int)
    requires 0 <= dt.month <= 13
    ensures ret == U64(EpochSeconds(dt) * 1000)
  {
    TableDaysBeforeMonth(dt.month, dt.year);
    hide U64, TableDaysBefore, DaysBeforeMonth, DaysBeforeYear;
    ret := U64(dt.second);
    ret := Accumulate(ret, dt.minute * 60, dt.second);
    ret := Accumulate(ret, dt.hour * 3600, dt.second + dt.minute * 60);
    ret := Accumulate(ret, dt.day * SECONDS_PER_DAY, dt.second + dt.minute * 60 + dt.hour * 3600);
    ghost var sum := dt.second + dt.minute * 60 + dt.hour * 3600 + dt.day * SECONDS_PER_DAY;
    ret := AccumulateMonths(ret, dt.month, sum);
    sum := sum + TableDaysBefore(dt.month) * SECONDS_PER_DAY;
    ret := AccumulateYears(ret, dt.year, sum);
    sum := sum + DaysBeforeYear(dt.year) * SECONDS_PER_DAY;
    if IsLeapYear(dt.year) && dt.month > 2 {
      ret := Accumulate(ret, SECONDS_PER_DAY, sum);
      sum := sum + SECONDS_PER_DAY;
    }
    U64Scale(sum);
    ret := U64(ret * 1000);
  }

  /** The seconds of `ep` that a partly filled-in datetime leaves over. */
  method EpochToYear(secs: nat) returns (year: int, rest: nat)
    ensures year >= EPOCH_YEAR && rest < DaysInYear(year) * SECONDS_PER_DAY
    ensures secs == DaysBeforeYear(year) * SECONDS_PER_DAY + rest
    ensures (year - EPOCH_YEAR) * 31536000 <= secs
  {
    year, rest := EPOCH_YEAR, secs;
    while rest >= DaysInYear(year) * SECONDS_PER_DAY
      invariant year >= EPOCH_YEAR && (year - EPOCH_YEAR) * 31536000 + rest <= secs
      invariant secs == DaysBeforeYear(year) * SECONDS_PER_DAY + rest
    {
      rest := rest - DaysInYear(year) * SECONDS_PER_DAY;
      year := year + 1;
    }
  }

  /** The month loop starts at the empty month 0 and never runs past month 12. */
  method EpochToMonth(year: int, secs: nat) returns (month: int, rest: nat)
    requires secs < DaysInYear(year) * SECONDS_PER_DAY
    ensures 1 <= month <= 12 && rest < DaysInMonth(month, year) * SECONDS_PER_DAY
    ensures secs == DaysBeforeMonth(month, year) * SECONDS_PER_DAY + rest
  {
    month, rest := 0, secs;
    MonthsFillYear(year);
    assert DaysInMonth(0, year) == 0;
    while rest >= DaysInMonth(month, year) * SECONDS_PER_DAY
      invariant 0 <= month <= 12
      invariant secs == DaysBeforeMonth(month, year) * SECONDS_PER_DAY + rest
      decreases 12 - month
    {
      rest := rest - DaysInMonth(month, year) * SECONDS_PER_DAY;
      month := month + 1;
    }
  }

  /** One of the counting loops below the month. */
  method CountDown(secs: nat, unit: nat) returns (n: nat, rest: nat)
    requires unit > 0
    ensures rest < unit && secs == n * unit + rest
  {
    n, rest := 0, secs;
    while rest >= unit
      invariant secs == n * unit + rest
    {
      rest := rest - unit;
      n := n + 1;
    }
  }

  /** `epoch2datetime`: the normal datetime of that second, found by subtracting. */
  method EpochToDatetime(ep: nat) returns (dt: Datetime)
    requires ep < 0x1_0000_0000_0000_0000
    ensures Normal(dt) && EpochSeconds(dt) == ep / 1000
    ensures dt.year < 0x8000_0000
  {
    hide DaysBeforeYear, DaysBeforeMonth;
    var year, inYear := EpochToYear(ep / 1000);
    var month, inMonth := EpochToMonth(year, inYear);
    var day, inDay := CountDown(inMonth, 86400);
    var hour, inHour := CountDown(inDay, 3600);
    var minute, second := CountDown(inHour, 60);
    dt := Datetime(day, month, year, hour, minute, second);
  }

  // ---------- the conversions undo each other ----------

  // ---------- the calendar from outside ----------

  /** The leap years up to `year`, as the Gregorian rule counts them. */
  function LeapsUpTo(year: int): int {
    year / 4 - year / 100 + year / 400
  }

  lemma NextFourth(y: int)
    ensures y / 4 == (y - 1) / 4 + if y % 4 == 0 then 1 else 0
  {
  }

  lemma NextHundredth(y: int)
    ensures y / 100 == (y - 1) / 100 + if y % 100 == 0 then 1 else 0
  {
  }

  lemma NextFourHundredth(y: int)
    ensures y / 400 == (y - 1) / 400 + if y % 400 == 0 then 1 else 0
  {
  }

  lemma FourTimes(k: int)
    ensures 4 * k % 4 == 0
  {
  }

  lemma HundredTimes(k: int)
    ensures 100 * k % 100 == 0
  {
  }

  lemma Divisors(y: int)
    ensures (y % 100 == 0 ==> y % 4 == 0) && (y % 400 == 0 ==> y % 100 == 0)
  {
    if y % 100 == 0 {
      FourTimes(25 * (y / 100));
    }
    if y % 400 == 0 {
      HundredTimes(4 * (y / 400));
    }
  }

  lemma Counted(a: int, b: int, c: int, d: int, e: int, f: int, y4: bool, y100: bool, y400: bool)
    requires a == b + (if y4 then 1 else 0) && c == d + (if y100 then 1 else 0) && e == f + if y400 then 1 else 0
    requires (y100 ==> y4) && (y400 ==> y100)
    ensures a - c + e == b - d + f + if y4 && (!y100 || y400) then 1 else 0
  {
  }

  lemma LeapsNext(y: int)
    ensures LeapsUpTo(y) == LeapsUpTo(y - 1) + if IsLeapYear(y) then 1 else 0
  {
    NextFourth(y);
    NextHundredth(y);
    NextFourHundredth(y);
    Divisors(y);
    Counted(y / 4, (y - 1) / 4, y / 100, (y - 1) / 100, y / 400, (y - 1) / 400, y % 4 == 0, y % 100 == 0, y % 400 == 0);
  }

  lemma {:induction false} YearFormula(year: int)
    requires year >= EPOCH_YEAR
    ensures DaysBeforeYear(year) == 365 * (year - 2000) + LeapsUpTo(year - 1) - LeapsUpTo(1999)
    decreases year
  {
    if year > EPOCH_YEAR {
      hide DaysBeforeYear, LeapsUpTo, IsLeapYear;
      assert DaysInYear(year - 1) == 365 + if IsLeapYear(year - 1) then 1 else 0;
      YearFormula(year - 1);
      NextYear(year - 1);
      LeapsNext(year - 1);
    }
  }

  lemma {:induction false} MonthFormula(month: int, year: int)
    requires 1 <= month <= 12
    ensures DaysBeforeMonth(month, year) == (367 * month - 362) / 12 - if month <= 2 then 0 else if IsLeapYear(year) then 1 else 2
    decreases month
  {
    hide DaysBeforeMonth;
    if month == 1 {
      FirstMonth(year);
    } else {
      MonthFormula(month - 1, year);
      NextMonth(month - 1, year);
      assert month in {2, 3, 4, 5, 6, 7, 8, 9, 10, 11, 12};
    }
  }

  /** The days up to the first of a month, by the closed formula of the Gregorian calendar. */
  lemma CalendarFormula(month: int, year: int)
    requires 1 <= month <= 12 && year >= EPOCH_YEAR
    ensures DaysBeforeYear(year) + DaysBeforeMonth(month, year)
         == 365 * (year - 2000) + (year - 1) / 4 - (year - 1) / 100 + (year - 1) / 400 - 484
            + (367 * month - 362) / 12 - if month <= 2 then 0 else if year % 4 == 0 && (year % 100 != 0 || year % 400 == 0) then 1 else 2
  {
    YearFormula(year);
    MonthFormula(month, year);
  }

  /** Where a clock-chip reading comes back as: itself, except on the last day of
      a month, which comes back as day 0 of the month after. */
  function ReadsBackAs(dt: Datetime): Datetime
    requires RtcReading(dt)
  {
    if dt.day < DaysInMonth(dt.month, dt.year) then dt
    else if dt.month < 12 then dt.(day := 0, month := dt.month + 1)
    else dt.(day := 0, month := 1, year := dt.year + 1)
  }

  lemma FirstMonth(year: int)
    ensures DaysBeforeMonth(1, year) == 0
  {
    assert DaysBeforeMonth(0, year) == 0;
  }

  lemma NextMonth(month: int, year: int)
    requires 1 <= month <= 12
    ensures DaysBeforeMonth(month + 1, year) == DaysBeforeMonth(month, year) + DaysInMonth(month, year)
  {
  }

  lemma NextYear(year: int)
    requires year >= EPOCH_YEAR
    ensures DaysBeforeYear(year + 1) == DaysBeforeYear(year) + DaysInYear(year)
  {
  }

  lemma ReadingIsNormalExceptOnLastDay(dt: Datetime)
    requires RtcReading(dt)
    ensures Normal(ReadsBackAs(dt)) && EpochSeconds(ReadsBackAs(dt)) == EpochSeconds(dt)
    ensures ReadsBackAs(dt) == dt <==> dt.day < DaysInMonth(dt.month, dt.year)
  {
    hide DaysBeforeMonth, DaysBeforeYear, DaysInYear;
    NextMonth(dt.month, dt.year);
    if dt.month == 12 {
      MonthsFillYear(dt.year);
      NextYear(dt.year);
      FirstMonth(dt.year + 1);
    }
  }

  /** The normal datetimes are exactly those that come back unchanged; of the clock chip's
      readings, those of a last day come back as day 0 of the next month. */
  method RoundTrip(dt: Datetime) returns (back: Datetime)
    requires 0 <= dt.month <= 13 && 0 <= EpochSeconds(dt) * 1000 < 0x1_0000_0000_0000_0000
    ensures back == dt <==> Normal(dt)
    ensures RtcReading(dt) ==> back == ReadsBackAs(dt)
  {
    hide DaysBeforeYear, DaysBeforeMonth, EpochSeconds;
    var ep := DatetimeToEpoch(dt);
    back := EpochToDatetime(ep);
    if Normal(dt) {
      EpochSecondsInjective(dt, back);
    }
    if RtcReading(dt) {
      ReadingIsNormalExceptOnLastDay(dt);
      EpochSecondsInjective(ReadsBackAs(dt), back);
    }
  }

  /** Going there from a number of milliseconds loses only the part of a second. */
  method RoundTripEpoch(ep: nat) returns (back: int)
    requires ep < 0x1_0000_0000_0000_0000
    ensures back == ep - ep % 1000
  {
    var dt := EpochToDatetime(ep);
    back := DatetimeToEpoch(dt);
  }

  // ---------- keeping time ----------

  const RESYNC_RATE: int := 5000

  /** Moving the counter by the difference of two whole seconds puts the time on
      the chip's second, with the same fraction; stopping at zero leaves the boot time. */
  lemma CounterMoved(boot: int, counter: int, moved: int, chip: int)
    requires 0 <= boot && boot % 1000 == 0 && 0 <= counter && 0 <= chip && chip % 1000 == 0
    requires var diff := boot + counter - (boot + counter) % 1000 - chip; moved == if counter >= diff then counter - diff else 0
    ensures (boot + moved) / 1000 == chip / 1000 <==> boot <= chip
    ensures boot <= chip ==> (boot + moved) % 1000 == (boot + counter) % 1000
    ensures boot > chip ==> moved == 0
  {
    var frac := (boot + counter) % 1000;
    var b, c := boot / 1000, chip / 1000;
    assert boot == 1000 * b && chip == 1000 * c;
    if boot <= chip {
      assert boot + moved == 1000 * c + frac;
    }
  }

  lemma WholeSeconds(msec: int)
    requires 0 <= msec
    ensures msec / 1000 * 1000 == msec - msec % 1000 && 0 <= msec % 1000 < 1000
  {
  }

  lemma WholeAgain(seconds: int)
    ensures seconds * 1000 % 1000 == 0 && seconds * 1000 / 1000 == seconds
  {
  }

  lemma U64Small(x: int)
    requires 0 <= x < 0x1_0000_0000_0000_0000
    ensures U64(x) == x
  {
  }

  /** The counters of the clock driver. */
  class Rtc {
    var bootMsec: int        // boot time, in milliseconds since the epoch
    var msecCounter: int     // milliseconds since boot
    var tickCounter: int     // interrupts not yet counted
    var lastResync: int
    var resyncFlag: bool

    ghost predicate Valid()
      reads this
    {
      && 0 <= bootMsec < 0x1_0000_0000_0000_0000 && bootMsec % 1000 == 0
      && 0 <= msecCounter < 0x1_0000_0000_0000_0000
      && 0 <= tickCounter < 0x1_0000_0000
    }

    /** Milliseconds that the pending interrupts stand for: 1 in 42 and then 1 in
        1000 of them are dropped. */
    function PendingMsec(): (r: int)
      reads this
      requires 0 <= tickCounter
      ensures 0 <= r <= tickCounter
    {
      var t := tickCounter - tickCounter / 42;
      t - t / 1000
    }

    /** The time the driver reports, in milliseconds since the epoch. */
    function Now(): int
      reads this
      requires 0 <= tickCounter
    {
      bootMsec + msecCounter + PendingMsec()
    }

    /** The 1024 interrupts that the chip raises in a second count as 999 milliseconds. */
    lemma SecondOfInterrupts()
      requires tickCounter == 1024
      ensures PendingMsec() == 999
    {
    }

    lemma Settled()
      requires tickCounter == 0
      ensures Now() == bootMsec + msecCounter
    {
    }

    /** `update_msec_counter` */
    method UpdateMsecCounter()
      requires Valid()
      modifies this
      ensures Valid() && tickCounter == 0
      ensures msecCounter == U64(old(msecCounter) + old(PendingMsec()))
      ensures bootMsec == old(bootMsec) && lastResync == old(lastResync)
      ensures resyncFlag == (old(resyncFlag) || U64(msecCounter - lastResync) > RESYNC_RATE)
    {
      tickCounter := tickCounter - tickCounter / 42;
      tickCounter := tickCounter - tickCounter / 1000;
      msecCounter := U64(msecCounter + tickCounter);
      tickCounter := 0;
      if U64(msecCounter - lastResync) > RESYNC_RATE {
        resyncFlag := true;
      }
    }

    /** `get_msecs` */
    method GetMsecs() returns (r: int)
      requires Valid()
      modifies this
      ensures Valid() && tickCounter == 0 && r == msecCounter
      ensures msecCounter == U64(old(msecCounter) + old(PendingMsec()))
      ensures bootMsec == old(bootMsec)
    {
      if tickCounter != 0 {
        UpdateMsecCounter();
      }
      r := msecCounter;
    }

    /** `current_datetime` */
    method CurrentDatetime() returns (dt: Datetime)
      requires Valid() && Now() < 0x1_0000_0000_0000_0000
      modifies this
      ensures Valid() && tickCounter == 0 && bootMsec == old(bootMsec) && Now() == old(Now())
      ensures Normal(dt) && EpochSeconds(dt) == Now() / 1000
    {
      var ms := GetMsecs();
      dt := EpochToDatetime(U64(bootMsec + ms));
    }

    /** The two branches that move the counter. */
    method Adjust(assumed: int, chip: int)
      requires Valid() && 0 <= chip && msecCounter + chip - assumed < 0x1_0000_0000_0000_0000
      modifies this`msecCounter
      ensures msecCounter == if old(msecCounter) >= assumed - chip then old(msecCounter) - (assumed - chip) else 0
    {
      if assumed > chip {
        var diff := assumed - chip;
        if msecCounter > diff {
          msecCounter := msecCounter - diff;
        } else {
          msecCounter := 0;
        }
      } else {
        msecCounter := U64(msecCounter + (chip - assumed));
      }
    }

    /** `resync_clock`: afterwards the driver's time agrees with the chip's to the
        second exactly when the chip is not behind the boot time. */
    method ResyncClock(rtcTime: Datetime)
      requires Valid() && Now() < 0x1_0000_0000_0000_0000
      requires 0 <= rtcTime.month <= 13 && 0 <= EpochSeconds(rtcTime) * 1000 < 0xFFFF_FFFF_FFFF_F000
      modifies this
      ensures Valid() && bootMsec == old(bootMsec) && !resyncFlag && lastResync == msecCounter
      ensures Now() / 1000 == EpochSeconds(rtcTime) <==> bootMsec <= EpochSeconds(rtcTime) * 1000
      ensures bootMsec <= EpochSeconds(rtcTime) * 1000 ==> Now() % 1000 == old(Now()) % 1000
      ensures bootMsec > EpochSeconds(rtcTime) * 1000 ==> Now() == bootMsec
    {
      hide DaysBeforeYear, DaysBeforeMonth, EpochSeconds, Now, PendingMsec, Normal, U64;
      var rtcEpoch := DatetimeToEpoch(rtcTime);
      U64Small(EpochSeconds(rtcTime) * 1000);
      WholeAgain(EpochSeconds(rtcTime));
      var current := CurrentDatetime();
      Settled();
      WholeSeconds(bootMsec + msecCounter);
      var assumed := DatetimeToEpoch(current);
      U64Small(EpochSeconds(current) * 1000);
      ghost var counter := msecCounter;
      Adjust(assumed, rtcEpoch);
      CounterMoved(bootMsec, counter, msecCounter, rtcEpoch);
      lastResync := msecCounter;
      resyncFlag := false;
      Settled();
    }

    /** A resynchronised clock shows the chip's reading, field by field, exactly
        when the reading is normal and not behind the boot time; a reading of a last day
        shows as day 0 of the next month. */
    method ResyncThenRead(rtcTime: Datetime) returns (dt: Datetime)
      requires Valid() && Now() < 0x1_0000_0000_0000_0000
      requires 0 <= rtcTime.month <= 13 && 0 <= EpochSeconds(rtcTime) * 1000 < 0xFFFF_FFFF_FFFF_F000
      modifies this
      ensures dt == rtcTime <==> Normal(rtcTime) && bootMsec <= EpochSeconds(rtcTime) * 1000
      ensures RtcReading(rtcTime) && bootMsec <= EpochSeconds(rtcTime) * 1000 ==> dt == ReadsBackAs(rtcTime)
    {
      hide DaysBeforeYear, DaysBeforeMonth, EpochSeconds;
      ResyncClock(rtcTime);
      dt := CurrentDatetime();
      if Normal(rtcTime) && EpochSeconds(dt) == EpochSeconds(rtcTime) {
        EpochSecondsInjective(rtcTime, dt);
      }
      if RtcReading(rtcTime) && EpochSeconds(dt) == EpochSeconds(rtcTime) {
        ReadingIsNormalExceptOnLastDay(rtcTime);
        EpochSecondsInjective(ReadsBackAs(rtcTime), dt);
      }
    }
  }
}
