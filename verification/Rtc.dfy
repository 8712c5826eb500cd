/**
  The real-time clock (drivers/platform/qapi_rtc.c): conversion between calendar dates and NTP seconds in
  32-bit arithmetic, and the clock that advances them with a millisecond timer and a time zone. NTP
  timestamps count seconds from 1900 modulo 2^32 (section 6 of RFC 5905), so they wrap around in 2036.
*/
module Rtc {
  import opened Basics
  import opened Bytes

  const DIFF_SEC_1900_1970: int := 2208988800
  const NUM_DAYS_PER_YEAR: int := 365
  const FRAC_PER_MSEC: int := 4294967

  // ----- The calendar -----

  predicate IsLeap(year: int) {
    (year % 4 == 0 && year % 100 != 0) || year % 400 == 0
  }

  function DaysInYear(year: int): (r: int)
    ensures r == NUM_DAYS_PER_YEAR || r == NUM_DAYS_PER_YEAR + 1
  {
    if IsLeap(year) then NUM_DAYS_PER_YEAR + 1 else NUM_DAYS_PER_YEAR
  }

  function DaysInMonth(year: int, month: int): (r: int)
    ensures 28 <= r <= 31
  {
    if month == 2 then (if IsLeap(year) then 29 else 28)
    else if month == 4 || month == 6 || month == 9 || month == 11 then 30
    else 31
  }

  /** qapi_Time_t. */
  datatype Time = Time(year: int, month: int, day: int, hour: int, minute: int, second: int, weekday: int)

  /** An existing date and time of day, from 1970 on, with any weekday. */
  predicate OnCalendar(t: Time) {
    && 1970 <= t.year && 1 <= t.month <= 12 && 1 <= t.day <= DaysInMonth(t.year, t.month)
    && 0 <= t.hour < 24 && 0 <= t.minute < 60 && 0 <= t.second < 60
  }

  /** Days from 1970-01-01 to the first day of the year, and from there to the first of the month. */
  function BeforeYear(year: int): (r: int)
    ensures r >= 0
  {
    if year <= 1970 then 0 else BeforeYear(year - 1) + DaysInYear(year - 1)
  }

  function BeforeMonth(year: int, month: int): (r: int)
    ensures r >= 0
  {
    if month <= 1 then 0 else BeforeMonth(year, month - 1) + DaysInMonth(year, month - 1)
  }

  function DayNumber(t: Time): int {
    BeforeYear(t.year) + BeforeMonth(t.year, t.month) + t.day - 1
  }

  /** Monday is 0; 1970-01-01 was a Thursday. */
  function Weekday(dayNumber: int): int {
    (dayNumber + 3) % 7
  }

  function Seconds(t: Time): int {
    DayNumber(t) * 86400 + t.hour * 3600 + t.minute * 60 + t.second
  }

  lemma WholeYear(year: int)
    ensures BeforeMonth(year, 13) == DaysInYear(year)
  {
    var leap := if IsLeap(year) then 1 else 0;
    assert BeforeMonth(year, 2) == 31;
    assert BeforeMonth(year, 4) == 90 + leap;
    assert BeforeMonth(year, 6) == 151 + leap;
    assert BeforeMonth(year, 8) == 212 + leap;
    assert BeforeMonth(year, 10) == 273 + leap;
    assert BeforeMonth(year, 12) == 334 + leap;
  }

  lemma {:induction false} MonthsGrow(year: int, m: int, n: int)
    requires 1 <= m < n
    ensures BeforeMonth(year, m) + DaysInMonth(year, m) <= BeforeMonth(year, n)
    decreases n
  {
    if m < n - 1 {
      MonthsGrow(year, m, n - 1);
    }
  }

  lemma {:induction false} YearsGrow(y: int, z: int)
    requires 1970 <= y < z
    ensures BeforeYear(y) + DaysInYear(y) <= BeforeYear(z)
    decreases z
  {
    if y < z - 1 {
      YearsGrow(y, z - 1);
    }
  }

  lemma NextYear(year: int)
    requires 1970 <= year
    ensures BeforeYear(year + 1) == BeforeYear(year) + DaysInYear(year)
  {
  }

  lemma BeforeFirstYear()
    ensures BeforeYear(1970) == 0
  {
  }

  lemma NextMonth(year: int, month: int)
    requires 1 <= month
    ensures BeforeMonth(year, month + 1) == BeforeMonth(year, month) + DaysInMonth(year, month)
    ensures BeforeMonth(year, 1) == 0
  {
  }

  /** A date lies inside its year. */
  lemma InsideYear(t: Time)
    requires OnCalendar(t)
    ensures 0 <= BeforeMonth(t.year, t.month) + t.day - 1 < DaysInYear(t.year)
  {
    WholeYear(t.year);
    MonthsGrow(t.year, t.month, 13);
  }

  /** Calendar order, most significant field first. */
  predicate Earlier(a: Time, b: Time) {
    || a.year < b.year
    || (a.year == b.year && (a.month < b.month || (a.month == b.month && (a.day < b.day || (a.day == b.day &&
          a.hour * 3600 + a.minute * 60 + a.second < b.hour * 3600 + b.minute * 60 + b.second)))))
  }

  /** Earlier dates have fewer seconds. */
  lemma EarlierIsLess(a: Time, b: Time)
    requires OnCalendar(a) && OnCalendar(b) && Earlier(a, b)
    ensures Seconds(a) < Seconds(b)
  {
    InsideYear(a);
    InsideYear(b);
    if a.year < b.year {
      YearsGrow(a.year, b.year);
      assert DayNumber(a) < DayNumber(b);
    } else if a.month < b.month {
      MonthsGrow(a.year, a.month, b.month);
      assert DayNumber(a) < DayNumber(b);
    }
  }

  /** Counting seconds is faithful: two dates with equal counts are the same date and time. */
  lemma SecondsIdentify(a: Time, b: Time)
    requires OnCalendar(a) && OnCalendar(b) && Seconds(a) == Seconds(b)
    ensures a == b.(weekday := a.weekday)
  {
    if Earlier(a, b) {
      EarlierIsLess(a, b);
    } else if Earlier(b, a) {
      EarlierIsLess(b, a);
    }
  }

  /** The day after. */
  function NextDay(t: Time): Time {
    if t.day < DaysInMonth(t.year, t.month) then t.(day := t.day + 1, weekday := (t.weekday + 1) % 7)
    else if t.month < 12 then t.(month := t.month + 1, day := 1, weekday := (t.weekday + 1) % 7)
    else t.(year := t.year + 1, month := 1, day := 1, weekday := (t.weekday + 1) % 7)
  }

  /** The day number counts days of the calendar: it starts at 0 and goes up by one from each day to the next. */
  lemma DayNumberCountsDays(t: Time)
    requires OnCalendar(t)
    ensures OnCalendar(NextDay(t)) && DayNumber(NextDay(t)) == DayNumber(t) + 1
    ensures t.weekday == Weekday(DayNumber(t)) ==> NextDay(t).weekday == Weekday(DayNumber(t) + 1)
    ensures DayNumber(Time(1970, 1, 1, 0, 0, 0, 3)) == 0
  {
    hide BeforeYear, BeforeMonth, DaysInYear;
    BeforeFirstYear();
    NextYear(t.year);
    NextMonth(t.year, t.month);
    NextMonth(t.year + 1, 1);
    NextMonth(1970, 1);
    WholeYear(t.year);
  }

  // ----- Date to NTP -----

  /** The NTP second of a date. */
  function NtpSecond(t: Time): int {
    U32(Seconds(t) + DIFF_SEC_1900_1970)
  }

  /** The source accepts a date when its year is in range and its weekday is right. */
  predicate Accepted(t: Time) {
    1970 <= t.year <= 2036 && t.weekday == U32(U32(DayNumber(t)) + 3) % 7
  }

  predicate Fields(t: Time) {
    && 0 <= t.year < 65536 && 0 <= t.month < 65536 && 0 <= t.day < 65536 && 0 <= t.hour < 65536
    && 0 <= t.minute < 65536 && 0 <= t.second < 65536 && 0 <= t.weekday < 65536
  }

  /** days_in_month as the source sets it up for a year. */
  function MonthTable(year: int): (r: seq<int>)
    ensures |r| == 12 && forall m :: 1 <= m <= 12 ==> r[m - 1] == DaysInMonth(year, m)
  {
    [31, if DaysInYear(year) > NUM_DAYS_PER_YEAR then 29 else 28, 31, 30, 31, 30, 31, 31, 30, 31, 30, 31]
  }

  /** What lies in memory behind the month table, for months above 12. */
  type Beyond = int -> byte

  /** The days of the months before the given one, as read from the table and from what lies behind it. */
  function ReadBefore(year: int, month: int, beyond: Beyond): (r: int)
    ensures 0 <= r && (month >= 1 ==> r <= 255 * (month - 1))
    decreases month
  {
    if month <= 1 then 0
    else ReadBefore(year, month - 1, beyond) + if month <= 13 then DaysInMonth(year, month - 1) else beyond(month - 1)
  }

  /** The day number that the code computes; it is the calendar's as long as the table is not overrun. */
  function DayRead(t: Time, beyond: Beyond): int {
    BeforeYear(t.year) + ReadBefore(t.year, t.month, beyond) + t.day - 1
  }

  lemma {:induction false} TableSuffices(year: int, month: int, beyond: Beyond)
    requires month <= 13
    ensures ReadBefore(year, month, beyond) == BeforeMonth(year, month)
    decreases month
  {
    if month > 1 {
      TableSuffices(year, month - 1, beyond);
    }
  }

  /** The counting loops: whole years, then whole months of the last one. */
  method CountDays(t: Time, beyond: Beyond) returns (days: int)
    requires Fields(t) && 1970 <= t.year <= 2036
    ensures days == U32(DayRead(t, beyond))
  {
    hide U32, IsLeap, DaysInYear, DaysInMonth;
    var year, month := 1970, 1;
    days := 0;
    while year < t.year
      invariant 1970 <= year <= t.year && days == BeforeYear(year) <= 366 * (year - 1970)
    {
      days := U32(days + DaysInYear(year));
      year := year + 1;
    }
    var table := MonthTable(year);
    while month < t.month
      invariant 1 <= month && (month <= t.month || month == 1)
      invariant days == BeforeYear(year) + ReadBefore(year, month, beyond)
    {
      days := U32(days + if month <= 12 then table[month - 1] else beyond(month));
      month := month + 1;
    }
    days := U32(days + t.day - 1);
  }

  /** What the code makes of a date, whatever its month. */
  predicate AcceptedRead(t: Time, beyond: Beyond) {
    1970 <= t.year <= 2036 && t.weekday == U32(U32(DayRead(t, beyond)) + 3) % 7
  }

  function SecondRead(t: Time, beyond: Beyond): int {
    U32(DayRead(t, beyond) * 86400 + t.hour * 3600 + t.minute * 60 + t.second + DIFF_SEC_1900_1970)
  }

  /** rtc_convert_Julian_to_NTP; a month above 13 reads past the month table. */
  method JulianToNtp(t: Time, beyond: Beyond) returns (r: Option<int>)
    requires Fields(t)
    ensures r == if AcceptedRead(t, beyond) then Some(SecondRead(t, beyond)) else None
    ensures t.month <= 13 ==> r == if Accepted(t) then Some(NtpSecond(t)) else None
  {
    hide U32, DayRead, DayNumber;
    if t.month <= 13 {
      ReadIsCalendar(t, beyond);
    }
    if t.year < 1970 || t.year > 2036 {
      return None;
    }
    var days := CountDays(t, beyond);
    if t.weekday != U32(days + 3) % 7 {
      return None;
    }
    var s := U32(U32(U32(days * 24 + t.hour) * 60 + t.minute) * 60 + t.second);
    s := U32(s + DIFF_SEC_1900_1970);
    WrappedSeconds(DayRead(t, beyond), t.hour, t.minute, t.second);
    return Some(s);
  }

  lemma ReadIsCalendar(t: Time, beyond: Beyond)
    requires t.month <= 13
    ensures DayRead(t, beyond) == DayNumber(t)
  {
    TableSuffices(t.year, t.month, beyond);
  }

  /** Reducing after every step is reducing once at the end. */
  lemma WrappedSeconds(n: int, hour: int, minute: int, second: int)
    ensures U32(U32(U32(U32(U32(n) * 24 + hour) * 60 + minute) * 60 + second) + DIFF_SEC_1900_1970)
         == U32(n * 86400 + hour * 3600 + minute * 60 + second + DIFF_SEC_1900_1970)
  {
    hide U32;
    Scales(n, 24, hour);
    var x := n * 24 + hour;
    Scales(x, 60, minute);
    var y := x * 60 + minute;
    Scales(y, 60, second);
    U32Absorbs(y * 60 + second, DIFF_SEC_1900_1970);
  }

  // ----- NTP to date -----

  /** The date of an NTP second, read as a second of the 2^32 that start in 1970. */
  predicate IsDateOf(t: Time, second: int) {
    OnCalendar(t) && Seconds(t) == U32(second - DIFF_SEC_1900_1970) && t.weekday == Weekday(DayNumber(t))
  }

  /** rtc_convert_NTP_to_Julian: the date whose count is the second, taken from 1970 modulo 2^32. */
  method NtpToJulian(second: int) returns (t: Time)
    requires 0 <= second < TWO_32
    ensures IsDateOf(t, second)
  {
    var s := U32(second - DIFF_SEC_1900_1970);
    ghost var total := s;
    var sec := s % 60;
    s := s / 60;
    var min := s % 60;
    s := s / 60;
    var hour := s % 24;
    var days := s / 24;
    var weekday := (days + 3) % 7;
    ghost var n := days;
    assert total == n * 86400 + hour * 3600 + min * 60 + sec;
    var year := 1970;
    while days >= DaysInYear(year)
      invariant 1970 <= year && 0 <= days && days + BeforeYear(year) == n
      decreases days
    {
      days := days - DaysInYear(year);
      year := year + 1;
    }
    var table := MonthTable(year);
    var count := 0;
    WholeYear(year);
    while days >= table[count]
      invariant 0 <= count < 12 && 0 <= days && days + BeforeMonth(year, count + 1) + BeforeYear(year) == n
      invariant days + BeforeMonth(year, count + 1) < DaysInYear(year)
      decreases 12 - count
    {
      days := days - table[count];
      count := count + 1;
    }
    t := Time(year, count + 1, days + 1, hour, min, sec, weekday);
  }

  // ----- The conversions are mutually inverse -----

  lemma {:induction false} YearsAreShort(year: int)
    requires 1970 <= year
    ensures BeforeYear(year) <= 366 * (year - 1970)
    decreases year
  {
    if year > 1970 {
      YearsAreShort(year - 1);
    }
  }

  /** Dates up to 2036 lie within the first 2^32 seconds after 1970. */
  lemma FirstSeconds(t: Time)
    requires OnCalendar(t) && t.year <= 2036
    ensures 0 <= DayNumber(t) < 67 * 366 && 0 <= Seconds(t) < TWO_32
  {
    hide BeforeYear, BeforeMonth, DaysInMonth;
    YearsAreShort(t.year);
    InsideYear(t);
  }

  /** Within the first 2^32 seconds, reducing the NTP second twice loses nothing. */
  lemma EraFolds(s: int)
    requires 0 <= s < TWO_32
    ensures U32(U32(s + DIFF_SEC_1900_1970) - DIFF_SEC_1900_1970) == s
  {
    hide U32;
    U32Absorbs(s + DIFF_SEC_1900_1970, DIFF_SEC_1900_1970);
  }

  lemma SameDay(t: Time, u: Time)
    requires t == u.(weekday := t.weekday)
    ensures DayNumber(t) == DayNumber(u) && Seconds(t) == Seconds(u)
  {
  }

  /** Date to second to date: whatever the second conversion returns is the date given to the first. */
  lemma DateThereAndBack(t: Time, d: Time)
    requires OnCalendar(t) && Accepted(t) && IsDateOf(d, NtpSecond(t))
    ensures d == t
  {
    hide U32, OnCalendar, DayNumber;
    FirstSeconds(t);
    EraFolds(Seconds(t));
    SecondsIdentify(d, t);
    SameDay(d, t);
    DaysFit(t);
  }

  /** Second to date to second, for every second; the date is refused exactly when it lies after 2036. */
  lemma SecondThereAndBack(second: int, d: Time)
    requires 0 <= second < TWO_32 && IsDateOf(d, second)
    ensures NtpSecond(d) == second
    ensures Accepted(d) <==> d.year <= 2036
  {
    hide U32, DaysInMonth, DayNumber;
    U32Absorbs(second - DIFF_SEC_1900_1970, -DIFF_SEC_1900_1970);
    DaysFit(d);
  }

  lemma DaysFit(d: Time)
    requires OnCalendar(d) && 0 <= Seconds(d) < TWO_32
    ensures d.weekday == Weekday(DayNumber(d)) <==> d.weekday == U32(U32(DayNumber(d)) + 3) % 7
  {
    assert 0 <= DayNumber(d) < 50000;
  }

  /** The first second of the next NTP era: 06:28:16 on 7 February 2036. */
  const WRAP := Time(2036, 2, 7, 6, 28, 16, 3)

  lemma {:induction false} FourYears(k: nat)
    requires k <= 32
    ensures BeforeYear(1970 + 4 * k) == 1461 * k
  {
    hide BeforeYear, DaysInYear;
    BeforeFirstYear();
    if k > 0 {
      FourYears(k - 1);
      var y := 1966 + 4 * k;
      NextYear(y);
      NextYear(y + 1);
      NextYear(y + 2);
      NextYear(y + 3);
      OneLeapInFour(k);
    }
  }

  lemma OneLeapInFour(k: nat)
    requires 0 < k <= 32
    ensures var y := 1966 + 4 * k;
      DaysInYear(y) + DaysInYear(y + 1) + DaysInYear(y + 2) + DaysInYear(y + 3) == 1461
  {
  }

  lemma WrapDate()
    ensures OnCalendar(WRAP) && Seconds(WRAP) == TWO_32 - DIFF_SEC_1900_1970 && NtpSecond(WRAP) == 0
  {
    FourYears(16);
    assert BeforeYear(2035) == BeforeYear(2034) + 365;
    assert BeforeYear(2036) == BeforeYear(2035) + 365;
    assert BeforeMonth(2036, 2) == 31;
  }

  /** Earlier dates have smaller NTP seconds exactly when the two lie on the same side of the wrap. */
  lemma OrderKeptUnlessWrapped(t: Time, u: Time)
    requires OnCalendar(t) && Accepted(t) && OnCalendar(u) && Accepted(u) && Earlier(t, u)
    ensures NtpSecond(t) < NtpSecond(u) <==> Earlier(u, WRAP) || !Earlier(t, WRAP)
  {
    hide U32, OnCalendar, DayNumber, Seconds, Accepted, Earlier;
    YearsAccepted(t);
    YearsAccepted(u);
    WrapDate();
    SideOfWrap(t);
    SideOfWrap(u);
    EarlierIsLess(t, u);
  }

  lemma YearsAccepted(t: Time)
    requires OnCalendar(t) && Accepted(t)
    ensures 0 <= Seconds(t) < TWO_32
  {
    hide U32, OnCalendar, DayNumber, Seconds;
    FirstSeconds(t);
  }

  lemma SideOfWrap(t: Time)
    requires OnCalendar(t)
    ensures Earlier(t, WRAP) <==> Seconds(t) < Seconds(WRAP)
  {
    hide DayNumber, Seconds;
    WrapDate();
    if Earlier(t, WRAP) {
      EarlierIsLess(t, WRAP);
    } else if Earlier(WRAP, t) {
      EarlierIsLess(WRAP, t);
    } else {
      assert t == WRAP.(weekday := t.weekday);
      SameDay(t, WRAP);
    }
  }

  // ----- The running clock -----

  /** ntp_Time_t: seconds of the era and a binary fraction of a second. */
  datatype Ntp = Ntp(second: int, frac: int)

  predicate IsNtp(n: Ntp) {
    0 <= n.second < TWO_32 && 0 <= n.frac < TWO_32
  }

  /** time_zone_t. */
  datatype Zone = Zone(hour: int, min: int, addSub: int)

  /** The globals of the clock. */
  datatype State = State(lastRtc: int, ntp: Ntp, zone: Zone, padding: int)

  predicate IsState(c: State) {
    0 <= c.lastRtc < TWO_32 && IsNtp(c.ntp)
  }

  function Offset(z: Zone): int {
    if z.addSub == 1 then z.hour * 3600 + z.min * 60 else -(z.hour * 3600 + z.min * 60)
  }

  /** The reference clock: a count of milliseconds, of which the era keeps 2^32 seconds. */
  function Millis(n: Ntp): int {
    n.second * 1000 + n.frac / FRAC_PER_MSEC
  }

  function AtMillis(ms: int): Ntp {
    Ntp(U32(ms / 1000), ms % 1000 * FRAC_PER_MSEC)
  }

  /** Milliseconds since the clock was set, as far as 32 bits can tell. */
  function Elapsed(c: State, now: int): int {
    U32(now - c.lastRtc + c.padding)
  }

  /** What a reading at timer value now returns: nothing unless the clock was set at a nonzero timer value. */
  function Reading(c: State, now: int): Option<Ntp> {
    if c.lastRtc == 0 then None else Some(AtMillis(Millis(c.ntp) + Elapsed(c, now)))
  }

  function Stored(c: State, n: Ntp, now: int): State {
    c.(lastRtc := now, ntp := n, padding := 0)
  }

  /** The local date that a reading at timer value now shows. */
  predicate Shows(c: State, now: int, t: Time) {
    Reading(c, now).Some? && IsDateOf(t, U32(Reading(c, now).value.second + Offset(c.zone)))
  }

  function StoredDate(c: State, t: Time, now: int): Option<State> {
    if Accepted(t) then Some(Stored(c, Ntp(U32(NtpSecond(t) - Offset(c.zone)), 0), now)) else None
  }

  class Clock {
    var lastRtc: int
    var ntp: Ntp
    var zone: Zone
    var padding: int

    function Now(): State
      reads this
    {
      State(lastRtc, ntp, zone, padding)
    }

    /** qapi_Core_RTC_NTP_Get; the timer value is a parameter. One carry is enough. */
    method NtpGet(now: int) returns (r: Option<Ntp>)
      requires IsState(Now()) && 0 <= now < TWO_32
      ensures r == Reading(Now(), now)
      ensures r.Some? ==> IsNtp(r.value)
    {
      hide U32;
      if lastRtc == 0 {
        return None;
      }
      var diff := U32(now - lastRtc + padding);
      var sec := U32(diff / 1000 + ntp.second);
      var msec := diff % 1000 + ntp.frac / FRAC_PER_MSEC;
      assert ntp.frac / FRAC_PER_MSEC <= 1000;
      if msec >= 1000 {
        sec := U32(sec + 1);
        msec := msec - 1000;
      }
      assert msec < 1000;
      U32Absorbs(diff / 1000 + ntp.second, 1);
      return Some(Ntp(sec, U32(msec * FRAC_PER_MSEC)));
    }

    /** qapi_Core_RTC_NTP_Set. */
    method NtpSet(n: Ntp, now: int)
      requires IsNtp(n) && 0 <= now < TWO_32
      modifies this
      ensures IsState(Now()) && Now() == Stored(old(Now()), n, now)
    {
      lastRtc := now;
      padding := 0;
      ntp := n;
    }

    /** qapi_Core_RTC_Julian_Get. */
    method JulianGet(now: int) returns (r: Option<Time>)
      requires IsState(Now()) && 0 <= now < TWO_32
      ensures r.Some? <==> lastRtc != 0
      ensures r.Some? ==> Shows(Now(), now, r.value)
    {
      hide U32, IsDateOf;
      var n := NtpGet(now);
      if n.None? {
        return None;
      }
      var second;
      if zone.addSub == 1 {
        second := U32(n.value.second + (zone.hour * 3600 + zone.min * 60));
      } else {
        second := U32(n.value.second - (zone.hour * 3600 + zone.min * 60));
      }
      var t := NtpToJulian(second);
      return Some(t);
    }

    /** qapi_Core_RTC_Julian_Set. */
    method JulianSet(t: Time, now: int, beyond: Beyond) returns (ok: bool)
      requires IsState(Now()) && Fields(t) && 0 <= now < TWO_32
      modifies this
      ensures IsState(Now()) && ok == AcceptedRead(t, beyond)
      ensures Now() == if !ok then old(Now())
                       else Stored(old(Now()), Ntp(U32(SecondRead(t, beyond) - Offset(old(zone))), 0), now)
      ensures t.month <= 13 ==> (ok <==> StoredDate(old(Now()), t, now).Some?)
      ensures t.month <= 13 && ok ==> Now() == StoredDate(old(Now()), t, now).value
    {
      hide U32, Accepted, NtpSecond, AcceptedRead, SecondRead;
      var n := JulianToNtp(t, beyond);
      if n.None? {
        return false;
      }
      var second;
      if zone.addSub == 1 {
        second := U32(n.value - (zone.hour * 3600 + zone.min * 60));
      } else {
        second := U32(n.value + (zone.hour * 3600 + zone.min * 60));
      }
      NtpSet(Ntp(second, 0), now);
      return true;
    }
  }

  /** Milliseconds survive the conversion to a fraction and back. */
  lemma FractionRoundTrip(ms: int)
    requires 0 <= ms <= 1000
    ensures 0 <= ms * FRAC_PER_MSEC < TWO_32 && (ms * FRAC_PER_MSEC) / FRAC_PER_MSEC == ms
  {
  }

  /** A reading counts the milliseconds, up to a whole number of eras. */
  lemma ReadingKeepsMillis(ms: int)
    ensures IsNtp(AtMillis(ms))
    ensures Millis(AtMillis(ms)) == ms - ms / 1000 / TWO_32 * TWO_32 * 1000
  {
    FractionRoundTrip(ms % 1000);
    var s := ms / 1000;
    assert U32(s) == s - s / TWO_32 * TWO_32;
  }

  /** Whole eras do not show. */
  lemma ErasDoNotShow(ms: int, k: int)
    ensures AtMillis(ms + k * TWO_32 * 1000) == AtMillis(ms)
  {
    hide U32;
    assert (ms + k * TWO_32 * 1000) / 1000 == ms / 1000 + k * TWO_32;
    SameModulo(ms / 1000, (ms + k * TWO_32 * 1000) / 1000, k);
  }

  /**
    Reading the clock, setting it to what was read and reading it again shows what one reading would have
    shown, exactly when the two elapsed times together do not overflow the 32-bit millisecond timer.
  */
  lemma GetSetGet(c: State, now: int, later: int)
    requires IsState(c) && c.lastRtc != 0 && 0 < now < TWO_32 && 0 <= later < TWO_32
    ensures var again := Stored(c, Reading(c, now).value, now);
      Reading(again, later) == Reading(c, later) <==> Elapsed(c, now) + Elapsed(again, later) < TWO_32
  {
    hide U32, AtMillis, Millis;
    var again := Stored(c, Reading(c, now).value, now);
    var e1, e2 := Elapsed(c, now), Elapsed(again, later);
    ElapsedAddsUp(c, now, later, again.ntp);
    var m := Millis(c.ntp);
    ReadingKeepsMillis(m + e1);
    var k := (m + e1) / 1000 / TWO_32;
    ErasDoNotShow(Millis(AtMillis(m + e1)) + e2, k);
    assert Reading(again, later).value == AtMillis(m + e1 + e2);
    if e1 + e2 >= TWO_32 {
      LostMillisShow(m + e1 + e2);
    }
  }

  lemma ElapsedAddsUp(c: State, now: int, later: int, n: Ntp)
    ensures Elapsed(c, later) == U32(Elapsed(c, now) + Elapsed(Stored(c, n, now), later))
  {
    hide U32;
    U32Absorbs(now - c.lastRtc + c.padding, later - now);
    U32Absorbs(Elapsed(c, now), later - now);
  }

  /** 2^32 milliseconds are not a whole number of eras, so losing them shows. */
  lemma LostMillisShow(ms: int)
    ensures AtMillis(ms - TWO_32) != AtMillis(ms)
  {
    hide U32;
    FractionRoundTrip(ms % 1000);
    FractionRoundTrip((ms - TWO_32) % 1000);
    assert TWO_32 % 1000 == 296;
  }

  /**
    The full stack: a date set at a nonzero timer value and read back e milliseconds later, in any time zone,
    shows the date e/1000 seconds later, with its weekday.
  */
  lemma SetThenGet(c: State, t: Time, now: int, e: int, shown: Time)
    requires OnCalendar(t) && Accepted(t) && 0 < now < TWO_32 && 0 <= e < TWO_32
    requires Shows(StoredDate(c, t, now).value, U32(now + e), shown)
    ensures OnCalendar(shown) && Seconds(shown) == Seconds(t) + e / 1000
    ensures shown.weekday == Weekday(DayNumber(shown))
  {
    hide U32, OnCalendar, DayNumber, Seconds, Accepted, Reading, Offset;
    var n := Ntp(U32(NtpSecond(t) - Offset(c.zone)), 0);
    ReadAfter(c, n, now, e);
    FirstSecondsAndMore(t);
    LocalRoundTrip(Seconds(t), Offset(c.zone), e / 1000);
  }

  /** A whole second set at a nonzero timer value has advanced by e/1000 after e milliseconds. */
  lemma ReadAfter(c: State, n: Ntp, now: int, e: int)
    requires n.frac == 0 && 0 < now < TWO_32 && 0 <= e < TWO_32
    ensures Reading(Stored(c, n, now), U32(now + e)).Some?
    ensures Reading(Stored(c, n, now), U32(now + e)).value.second == U32(n.second + e / 1000)
  {
    hide U32;
    U32Absorbs(now + e, -now);
    assert (n.second * 1000 + e) / 1000 == n.second + e / 1000;
  }

  lemma FirstSecondsAndMore(t: Time)
    requires OnCalendar(t) && Accepted(t)
    ensures 0 <= Seconds(t) < 67 * 366 * 86400
  {
    hide U32, BeforeYear, BeforeMonth;
    FirstSeconds(t);
  }

  /** The zone that is taken off when setting is put back when reading, whatever wraps on the way. */
  lemma LocalRoundTrip(s: int, offset: int, more: int)
    requires 0 <= s + more < TWO_32
    ensures var stored := U32(U32(s + DIFF_SEC_1900_1970) - offset);
      U32(U32(U32(stored + more) + offset) - DIFF_SEC_1900_1970) == s + more
  {
    hide U32;
    var n := s + DIFF_SEC_1900_1970;
    StoredAndMore(n, offset, more);
    U32Absorbs(n - offset + more, offset);
    Unshifted(s + more);
  }

  lemma StoredAndMore(n: int, offset: int, more: int)
    ensures U32(U32(U32(n) - offset) + more) == U32(n - offset + more)
  {
    hide U32;
    U32Absorbs(n, offset);
    U32Absorbs(n - offset, more);
  }

  lemma Unshifted(x: int)
    requires 0 <= x < TWO_32
    ensures U32(U32(x + DIFF_SEC_1900_1970) - DIFF_SEC_1900_1970) == x
  {
    hide U32;
    U32Absorbs(x + DIFF_SEC_1900_1970, DIFF_SEC_1900_1970);
  }

  // ----- What a zone and the padding do -----

  /**
    The universal time t, set with a whole NTP second and read e milliseconds later, shows the local date: the
    zone's hours and minutes later for a zone marked 1, and earlier for any other mark.
  */
  lemma ZoneIsAdded(c: State, t: Time, now: int, e: int, shown: Time)
    requires OnCalendar(t) && t.year <= 2036 && 0 < now < TWO_32 && 0 <= e < TWO_32
    requires Shows(Stored(c, Ntp(NtpSecond(t), 0), now), U32(now + e), shown)
    requires var local := if c.zone.addSub == 1 then c.zone.hour * 3600 + c.zone.min * 60
                          else -(c.zone.hour * 3600 + c.zone.min * 60);
      0 <= Seconds(t) + e / 1000 + local < TWO_32
    ensures OnCalendar(shown) && shown.weekday == Weekday(DayNumber(shown))
    ensures c.zone.addSub == 1 ==> Seconds(shown) == Seconds(t) + e / 1000 + c.zone.hour * 3600 + c.zone.min * 60
    ensures c.zone.addSub != 1 ==> Seconds(shown) == Seconds(t) + e / 1000 - c.zone.hour * 3600 - c.zone.min * 60
  {
    hide U32, OnCalendar, DayNumber, Seconds, Reading;
    var n := Ntp(NtpSecond(t), 0);
    ReadAfter(c, n, now, e);
    ShiftedRoundTrip(Seconds(t), e / 1000, Offset(c.zone));
  }

  lemma ShiftedRoundTrip(s: int, more: int, shift: int)
    requires 0 <= s + more + shift < TWO_32
    ensures U32(U32(U32(U32(s + DIFF_SEC_1900_1970) + more) + shift) - DIFF_SEC_1900_1970) == s + more + shift
  {
    hide U32;
    var n := s + DIFF_SEC_1900_1970;
    U32Absorbs(n, more);
    U32Absorbs(n + more, shift);
    Unshifted(s + more + shift);
  }

  /**
    A local date that is set is kept as universal time: read back as an NTP second e milliseconds later, it is the
    date's second since 1900, less the zone for a zone marked 1 and plus the zone for any other, plus e/1000.
  */
  lemma ZoneIsTakenOff(c: State, t: Time, now: int, e: int)
    requires Accepted(t) && 0 < now < TWO_32 && 0 <= e < TWO_32
    ensures StoredDate(c, t, now).Some?
    ensures var r := Reading(StoredDate(c, t, now).value, U32(now + e));
      && r.Some?
      && r.value.second == (Seconds(t) + 2208988800 + e / 1000
           + if c.zone.addSub == 1 then -(c.zone.hour * 3600 + c.zone.min * 60)
             else c.zone.hour * 3600 + c.zone.min * 60)
         % 0x1_0000_0000
  {
    hide OnCalendar, DayNumber, Seconds, Reading, Accepted, U32;
    var n := Ntp(U32(NtpSecond(t) - Offset(c.zone)), 0);
    ReadAfter(c, n, now, e);
    StoredAndMore(Seconds(t) + DIFF_SEC_1900_1970, Offset(c.zone), e / 1000);
    IsRemainder(Seconds(t) + DIFF_SEC_1900_1970 - Offset(c.zone) + e / 1000);
  }

  lemma IsRemainder(x: int)
    ensures U32(x) == x % 0x1_0000_0000
  {
  }

  /** Read before the timer has wrapped: the stored time plus the timer's advance plus the padding, in milliseconds. */
  lemma PaddingIsAdded(c: State, now: int)
    requires IsState(c) && c.lastRtc != 0 && 0 <= now - c.lastRtc + c.padding < 0x1_0000_0000
    ensures var ms := c.ntp.second * 1000 + c.ntp.frac / 4294967 + (now - c.lastRtc + c.padding);
      Reading(c, now) == Some(Ntp((ms / 1000) % 0x1_0000_0000, ms % 1000 * 4294967))
  {
    hide U32;
    var ms := Millis(c.ntp) + (now - c.lastRtc + c.padding);
    IsRemainder(ms / 1000);
  }

  // ----- One day -----

  /** 1 January 2020 was a Wednesday, and began 3786825600 seconds after 1900. */
  lemma NewYear2020()
    ensures var t := Time(2020, 1, 1, 0, 0, 0, 2);
      OnCalendar(t) && Accepted(t) && NtpSecond(t) == 3786825600 && !Accepted(t.(weekday := 3))
  {
    hide BeforeYear, BeforeMonth;
    DaysBefore2020();
  }

  lemma DaysBefore2020()
    ensures BeforeYear(2019) == 17897 && BeforeYear(2020) == 18262
    ensures BeforeMonth(2019, 12) == 334 && BeforeMonth(2020, 1) == 0
  {
    hide BeforeMonth, BeforeYear;
    FourYears(12);
    NextYear(2018);
    NextYear(2019);
    MonthsBefore2020();
  }

  lemma MonthsBefore2020()
    ensures BeforeMonth(2019, 12) == 334 && BeforeMonth(2020, 1) == 0
  {
    WholeYear(2019);
    assert BeforeMonth(2019, 13) == BeforeMonth(2019, 12) + 31;
  }

  /** Eight hours east, the same moment is shown as eight in the morning; eight hours west, as four the day before. */
  lemma NewYearElsewhere(c: State, now: int, shown: Time)
    requires 0 < now < TWO_32 && c.zone.hour == 8 && c.zone.min == 0
    requires Shows(Stored(c, Ntp(3786825600, 0), now), now, shown)
    ensures c.zone.addSub == 1 ==> shown == Time(2020, 1, 1, 8, 0, 0, 2)
    ensures c.zone.addSub != 1 ==> shown == Time(2019, 12, 31, 16, 0, 0, 1)
  {
    hide U32, Shows, Accepted, NtpSecond, Seconds, DayNumber, OnCalendar;
    var t := Time(2020, 1, 1, 0, 0, 0, 2);
    NewYear2020();
    NewYearSeconds();
    ZoneIsAdded(c, t, now, 0, shown);
    if c.zone.addSub == 1 {
      SecondsIdentify(shown, Time(2020, 1, 1, 8, 0, 0, 2));
      SameDay(shown, Time(2020, 1, 1, 8, 0, 0, 2));
    } else {
      SecondsIdentify(shown, Time(2019, 12, 31, 16, 0, 0, 1));
      SameDay(shown, Time(2019, 12, 31, 16, 0, 0, 1));
    }
  }

  lemma NewYearSeconds()
    ensures Seconds(Time(2020, 1, 1, 0, 0, 0, 2)) == 1577836800
    ensures var t := Time(2020, 1, 1, 8, 0, 0, 2);
      OnCalendar(t) && Seconds(t) == 1577836800 + 28800 && Weekday(DayNumber(t)) == 2
    ensures var t := Time(2019, 12, 31, 16, 0, 0, 1);
      OnCalendar(t) && Seconds(t) == 1577836800 - 28800 && Weekday(DayNumber(t)) == 1
  {
    hide BeforeYear, BeforeMonth;
    DaysBefore2020();
  }

  /** Years outside 1970..2036 are refused, whatever the weekday. */
  lemma YearsRefused(t: Time, beyond: Beyond)
    requires t.year < 1970 || t.year > 2036
    ensures !Accepted(t) && !AcceptedRead(t, beyond)
  {
  }

  /** A valid date in range is accepted exactly with the weekday that counting from Thursday, 1 January 1970 gives. */
  lemma AcceptedIffWeekday(t: Time)
    requires OnCalendar(t) && t.year <= 2036
    ensures Accepted(t) <==> t.weekday == (DayNumber(t) + 3) % 7
  {
    hide DayNumber, DaysInMonth, Seconds, U32;
    FirstSeconds(t);
    DaysFit(t);
  }

  /** The lengths of the months; February has 29 days in 2000, 2004 and 2096, but not in 1999, 2019 or 2100. */
  lemma MonthLengths(year: int)
    ensures DaysInMonth(year, 1) == DaysInMonth(year, 3) == DaysInMonth(year, 5) == DaysInMonth(year, 7) == 31
    ensures DaysInMonth(year, 8) == DaysInMonth(year, 10) == DaysInMonth(year, 12) == 31
    ensures DaysInMonth(year, 4) == DaysInMonth(year, 6) == DaysInMonth(year, 9) == DaysInMonth(year, 11) == 30
    ensures DaysInMonth(year, 2) == if year % 400 == 0 || (year % 4 == 0 && year % 100 != 0) then 29 else 28
    ensures DaysInMonth(2000, 2) == DaysInMonth(2004, 2) == DaysInMonth(2096, 2) == 29
    ensures DaysInMonth(1999, 2) == DaysInMonth(2019, 2) == DaysInMonth(2100, 2) == 28
  {
  }
}
