/** The real-time clock chip: a calendar that ticks, seen through registers in binary-coded decimal. */
module RtcClock {
  // ---------- binary-coded decimal ----------

  function Bcd2Bin(x: nat): nat {
    x % 16 + x / 16 * 10
  }

  function Bin2Bcd(v: nat): nat {
    v / 10 * 16 + v % 10
  }

  lemma BcdRoundTrip(v: nat)
    requires v < 100
    ensures Bin2Bcd(v) < 256 && Bcd2Bin(Bin2Bcd(v)) == v
    ensures Bin2Bcd(v) == 0 <==> v == 0
  {
  }

  // What the encoding is: one decimal digit in each half of the byte.
  lemma BcdDigits(high: nat, low: nat)
    requires high < 10 && low < 10
    ensures Bin2Bcd(10 * high + low) == 0x10 * high + low
    ensures Bcd2Bin(0x10 * high + low) == 10 * high + low
  {
  }

  // ---------- the calendar ----------

  // Months count from 1 and years from 2000, as in the registers.
  datatype Civil = Civil(sec: nat, min: nat, hour: nat, mday: nat, mon: nat, year: nat)

  predicate TwoDigits(c: Civil) {
    c.sec < 60 && c.min < 60 && c.hour < 100 && c.mday < 100 && c.mon < 100 && c.year < 100
  }

  function DaysIn(mon: nat, year: nat): nat {
    if mon == 2 then (if year % 4 == 0 then 29 else 28)
    else if mon == 4 || mon == 6 || mon == 9 || mon == 11 then 30
    else 31
  }

  function NextYear(c: Civil): Civil {
    c.(mon := 1, year := if c.year < 99 then c.year + 1 else 0)
  }

  function NextMonth(c: Civil): Civil {
    var d := c.(mday := 1);
    if d.mon < 12 then d.(mon := d.mon + 1) else NextYear(d)
  }

  function NextDay(c: Civil): Civil {
    var d := c.(hour := 0);
    if d.mday < DaysIn(d.mon, d.year) then d.(mday := d.mday + 1) else NextMonth(d)
  }

  function NextHour(c: Civil): Civil {
    var d := c.(min := 0);
    if d.hour < 23 then d.(hour := d.hour + 1) else NextDay(d)
  }

  function NextMinute(c: Civil): Civil {
    var d := c.(sec := 0);
    if d.min < 59 then d.(min := d.min + 1) else NextHour(d)
  }

  function Tick(c: Civil): Civil {
    if c.sec < 59 then c.(sec := c.sec + 1) else NextMinute(c)
  }

  // ---------- the calendar counts seconds ----------

  // A time that exists, with the days of a leap year every fourth year.
  predicate Valid(c: Civil) {
    && c.sec < 60 && c.min < 60 && c.hour < 24 && 1 <= c.mon <= 12 && c.year < 100
    && 1 <= c.mday <= DaysIn(c.mon, c.year)
  }

  const DAYS_BEFORE: seq<nat> := [0, 31, 59, 90, 120, 151, 181, 212, 243, 273, 304, 334]

  // Days since the start of 2000.
  function DayNumber(c: Civil): nat
    requires 1 <= c.mon <= 12 && 1 <= c.mday
  {
    365 * c.year + (c.year + 3) / 4
    + DAYS_BEFORE[c.mon - 1] + (if 2 < c.mon && c.year % 4 == 0 then 1 else 0) + c.mday - 1
  }

  function SecondOfDay(c: Civil): nat {
    3600 * c.hour + 60 * c.min + c.sec
  }

  // The next day is the next, over every end of a month and of a year; a hundred years hold 36525.
  lemma NextDayIsNext(c: Civil)
    requires Valid(c)
    ensures Valid(NextDay(c)) && NextDay(c) == NextDay(c).(sec := c.sec, min := c.min, hour := 0)
    ensures DayNumber(NextDay(c)) == (DayNumber(c) + 1) % 36525
  {
    hide DayNumber;
    if c.mday < DaysIn(c.mon, c.year) {
      DayInMonth(c);
    } else if c.mon < 12 {
      MonthEnds(c);
    } else {
      YearEnds(c);
    }
  }

  lemma DayInMonth(c: Civil)
    requires Valid(c) && c.mday < DaysIn(c.mon, c.year)
    ensures DayNumber(c.(hour := 0, mday := c.mday + 1)) == (DayNumber(c) + 1) % 36525
  {
    BelowCentury(c);
  }

  lemma MonthEnds(c: Civil)
    requires Valid(c) && c.mday == DaysIn(c.mon, c.year) && c.mon < 12
    ensures DayNumber(c.(hour := 0, mday := 1, mon := c.mon + 1)) == (DayNumber(c) + 1) % 36525
  {
    BelowCentury(c);
  }

  lemma YearEnds(c: Civil)
    requires Valid(c) && c.mday == 31 && c.mon == 12
    ensures DayNumber(c.(hour := 0, mday := 1, mon := 1, year := if c.year < 99 then c.year + 1 else 0))
            == (DayNumber(c) + 1) % 36525
  {
    BelowCentury(c);
    LeapDays(c.year);
  }

  lemma LeapDays(year: nat)
    ensures (year + 4) / 4 == (year + 3) / 4 + if year % 4 == 0 then 1 else 0
  {
  }

  lemma BelowCentury(c: Civil)
    requires Valid(c)
    ensures DayNumber(c) < 36525 && (DayNumber(c) == 36524 ==> c.year == 99 && c.mon == 12 && c.mday == 31)
  {
    assert DAYS_BEFORE[c.mon - 1] + (if 2 < c.mon && c.year % 4 == 0 then 1 else 0) + c.mday
           <= if c.year % 4 == 0 then 366 else 365;
  }

  // Each tick is one second: from any time that exists to one that exists, over every rollover.
  lemma TickIsOneSecond(c: Civil)
    requires Valid(c)
    ensures Valid(Tick(c)) && SecondOfDay(Tick(c)) == (SecondOfDay(c) + 1) % 86400
    ensures DayNumber(Tick(c)) ==
              if SecondOfDay(c) < 86399 then DayNumber(c) else (DayNumber(c) + 1) % 36525
  {
    hide NextDay, DayNumber, DaysIn;
    NextDayIsNext(c.(sec := 0, min := 0));
    SameDay(c, c.(sec := 0, min := 0));
    SameDay(c, Tick(c));
  }

  lemma SameDay(c: Civil, d: Civil)
    requires 1 <= c.mon <= 12 && 1 <= c.mday
    ensures c.mday == d.mday && c.mon == d.mon && c.year == d.year ==> DayNumber(c) == DayNumber(d)
  {
  }

  function Ticks(c: Civil, n: nat): Civil
    decreases n
  {
    if n == 0 then c else Ticks(Tick(c), n - 1)
  }

  lemma {:induction false} TicksKeepDigits(c: Civil, n: nat)
    requires TwoDigits(c)
    ensures TwoDigits(Ticks(c, n))
    decreases n
  {
    if n != 0 {
      TicksKeepDigits(Tick(c), n - 1);
    }
  }

  lemma {:induction false} TicksAdd(c: Civil, m: nat, n: nat)
    ensures Ticks(c, m + n) == Ticks(Ticks(c, m), n)
    decreases m
  {
    if m != 0 {
      TicksAdd(Tick(c), m - 1, n);
    }
  }

  // Within a minute only the seconds move.
  lemma {:induction false} SameMinute(c: Civil, n: nat)
    requires c.sec + n < 60
    ensures Ticks(c, n) == c.(sec := c.sec + n)
    decreases n
  {
    if n != 0 {
      SameMinute(Tick(c), n - 1);
    }
  }

  // A clock whose seconds show at least the n ticks that passed has stayed within its minute;
  // one that passed fewer than 60 ticks and shows fewer seconds is in the next minute.
  lemma SecondsTell(c: Civil, n: nat)
    requires TwoDigits(c) && n < 60
    ensures Ticks(c, n).sec >= n ==> Ticks(c, n) == c.(sec := c.sec + n)
    ensures Ticks(c, n).sec < n ==>
              c.sec + n >= 60 && Ticks(c, n) == NextMinute(c).(sec := c.sec + n - 60) && Ticks(c, n).min != c.min
  {
    if c.sec + n < 60 {
      SameMinute(c, n);
    } else {
      var a := 59 - c.sec;
      SameMinute(c, a);
      TicksAdd(c, a, 1);
      assert Ticks(c, a + 1) == NextMinute(c) by {
        assert Ticks(Ticks(c, a), 1) == Tick(Ticks(c, a));
      }
      TicksAdd(c, a + 1, n - a - 1);
      SameMinute(NextMinute(c), n - a - 1);
    }
  }

  // ---------- the chip ----------

  class RtcChip {
    var now: Civil

    constructor (now: Civil)
      ensures this.now == now
    {
      this.now := now;
    }

    // Time passes.
    method Advance(n: nat)
      modifies this
      ensures now == Ticks(old(now), n)
    {
      var i := 0;
      while i < n
        invariant 0 <= i <= n && Ticks(now, n - i) == Ticks(old(now), n)
      {
        now := Tick(now);
        i := i + 1;
      }
    }
  }
}
