/** rtc_gettime and rtc_settime: six registers, read or written one by one while the clock runs. */
module Rtc {
  import opened Kernel
  import opened RtcClock

  // struct rtc_time, which the driver fills in and shifts in place.
  class RtcTime {
    var sec: int
    var min: int
    var hour: int
    var mday: int
    var mon: int
    var year: int

    constructor (t: Tm)
      ensures Fields() == t
    {
      sec, min, hour, mday, mon, year := t.sec, t.min, t.hour, t.mday, t.mon, t.year;
    }

    function Fields(): Tm
      reads this
    {
      Tm(sec, min, hour, mday, mon, year)
    }
  }

  // Its value.  Months count from 0 and years from 1900.
  datatype Tm = Tm(sec: int, min: int, hour: int, mday: int, mon: int, year: int)

  // How the kernel names the clock's time.
  function ToTm(c: Civil): Tm {
    Tm(c.sec, c.min, c.hour, c.mday, c.mon - 1, c.year + 100)
  }

  // ---------- elapsed time ----------

  // delay(i) ticks pass before the i-th access; Elapsed(delay, i) in all before the i-th access is made.
  function Elapsed(delay: nat -> nat, i: nat): nat {
    if i == 0 then delay(0) else Elapsed(delay, i - 1) + delay(i)
  }

  function At(c: Civil, delay: nat -> nat, i: nat): Civil {
    Ticks(c, Elapsed(delay, i))
  }

  lemma {:induction false} ElapsedMonotone(delay: nat -> nat, i: nat, j: nat)
    requires i <= j
    ensures Elapsed(delay, i) <= Elapsed(delay, j)
    decreases j
  {
    if i < j {
      ElapsedMonotone(delay, i, j - 1);
    }
  }

  // The clock at a later access, seen from an earlier one.
  lemma AtLater(c: Civil, delay: nat -> nat, i: nat, j: nat)
    requires i <= j
    ensures Elapsed(delay, i) <= Elapsed(delay, j)
    ensures At(c, delay, j) == Ticks(At(c, delay, i), Elapsed(delay, j) - Elapsed(delay, i))
  {
    ElapsedMonotone(delay, i, j);
    TicksAdd(c, Elapsed(delay, i), Elapsed(delay, j) - Elapsed(delay, i));
  }

  // ---------- reading ----------

  // What one pass collects, its first access being number b: five fields and at last the seconds.
  function Pass(c: Civil, delay: nat -> nat, b: nat): Civil {
    Civil(At(c, delay, b + 5).sec, At(c, delay, b).min, At(c, delay, b + 1).hour,
          At(c, delay, b + 2).mday, At(c, delay, b + 3).mon, At(c, delay, b + 4).year)
  }

  // The first access of the pass whose fields are returned: a zero second causes one retry.
  function LastPass(c: Civil, delay: nat -> nat): nat {
    if At(c, delay, 5).sec == 0 then 6 else 0
  }

  // Ticks between the first and the last access of a pass.
  function Span(delay: nat -> nat, b: nat): nat {
    ElapsedMonotone(delay, b, b + 5);
    Elapsed(delay, b + 5) - Elapsed(delay, b)
  }

  lemma AtNext(c: Civil, delay: nat -> nat, i: nat)
    ensures At(c, delay, i + 1) == Ticks(At(c, delay, i), delay(i + 1))
  {
    TicksAdd(c, Elapsed(delay, i), delay(i + 1));
  }

  lemma AtFirst(c: Civil, delay: nat -> nat)
    ensures At(c, delay, 0) == Ticks(c, delay(0))
  {
  }

  // The six register reads of one pass, in the source's order.
  method ReadPass(chip: RtcChip, tm: RtcTime, delay: nat -> nat, b: nat, ghost c: Civil)
    requires chip.now == if b == 0 then c else At(c, delay, b - 1)
    modifies chip, tm
    ensures var p := Pass(c, delay, b);
            tm.Fields() == Tm(Bin2Bcd(p.sec), Bin2Bcd(p.min), Bin2Bcd(p.hour),
                              Bin2Bcd(p.mday), Bin2Bcd(p.mon), Bin2Bcd(p.year))
    ensures chip.now == At(c, delay, b + 5)
  {
    hide Ticks, Bin2Bcd, At, Elapsed;
    if 0 < b {
      AtNext(c, delay, b - 1);
    } else {
      AtFirst(c, delay);
    }
    AtNext(c, delay, b);
    AtNext(c, delay, b + 1);
    AtNext(c, delay, b + 2);
    AtNext(c, delay, b + 3);
    AtNext(c, delay, b + 4);
    chip.Advance(delay(b));
    tm.min := Bin2Bcd(chip.now.min);
    chip.Advance(delay(b + 1));
    tm.hour := Bin2Bcd(chip.now.hour);
    chip.Advance(delay(b + 2));
    tm.mday := Bin2Bcd(chip.now.mday);
    chip.Advance(delay(b + 3));
    tm.mon := Bin2Bcd(chip.now.mon);
    chip.Advance(delay(b + 4));
    tm.year := Bin2Bcd(chip.now.year);
    chip.Advance(delay(b + 5));
    tm.sec := Bin2Bcd(chip.now.sec);
  }

  lemma PassDigits(c: Civil, delay: nat -> nat, b: nat)
    requires TwoDigits(c)
    ensures TwoDigits(Pass(c, delay, b))
  {
    forall i: nat
      ensures TwoDigits(At(c, delay, i))
    {
      TicksKeepDigits(c, Elapsed(delay, i));
    }
  }

  lemma Decode(p: Civil)
    requires TwoDigits(p)
    ensures Bcd2Bin(Bin2Bcd(p.sec)) == p.sec && Bcd2Bin(Bin2Bcd(p.min)) == p.min && Bcd2Bin(Bin2Bcd(p.hour)) == p.hour
    ensures Bcd2Bin(Bin2Bcd(p.mday)) == p.mday && Bcd2Bin(Bin2Bcd(p.mon)) == p.mon && Bcd2Bin(Bin2Bcd(p.year)) == p.year
  {
    BcdRoundTrip(p.sec);
    BcdRoundTrip(p.min);
    BcdRoundTrip(p.hour);
    BcdRoundTrip(p.mday);
    BcdRoundTrip(p.mon);
    BcdRoundTrip(p.year);
  }

  method GetTime(chip: RtcChip, tm: RtcTime, delay: nat -> nat)
    requires TwoDigits(chip.now)
    modifies chip, tm
    ensures var b := LastPass(old(chip.now), delay);
            && tm.Fields() == ToTm(Pass(old(chip.now), delay, b))
            && chip.now == At(old(chip.now), delay, b + 5)
  {
    hide Ticks, Bin2Bcd, Bcd2Bin;
    ghost var c := chip.now;
    var haveRetried := false;
    var b := 0;
    while true
      invariant b == if haveRetried then 6 else 0
      invariant haveRetried ==> At(c, delay, 5).sec == 0 && chip.now == At(c, delay, 5)
      invariant !haveRetried ==> chip.now == c
      decreases !haveRetried
    {
      ReadPass(chip, tm, delay, b, c);
      PassDigits(c, delay, b);
      BcdRoundTrip(Pass(c, delay, b).sec);
      if tm.sec == 0 && !haveRetried {
        haveRetried := true;
        b := 6;
      } else {
        break;
      }
    }
    Decode(Pass(c, delay, b));
    tm.sec := Bcd2Bin(tm.sec);
    tm.min := Bcd2Bin(tm.min);
    tm.hour := Bcd2Bin(tm.hour);
    tm.mday := Bcd2Bin(tm.mday);
    tm.mon := Bcd2Bin(tm.mon);
    tm.year := Bcd2Bin(tm.year);
    tm.year := tm.year + 100;
    tm.mon := tm.mon - 1;
  }

  // A pass over fewer than 60 ticks is exact if and only if it spans no more ticks than the
  // second it ends on; otherwise its minute is that of an earlier time.
  lemma PassExact(c: Civil, delay: nat -> nat, b: nat)
    requires TwoDigits(c) && Span(delay, b) < 60
    ensures Pass(c, delay, b) == At(c, delay, b + 5) <==> Span(delay, b) <= At(c, delay, b + 5).sec
  {
    hide Ticks, Elapsed;
    var last := At(c, delay, b + 5);
    TicksKeepDigits(c, Elapsed(delay, b));
    TicksKeepDigits(c, Elapsed(delay, b + 5));
    AtLater(c, delay, b, b + 5);
    SecondsTell(At(c, delay, b), Span(delay, b));
    if Span(delay, b) <= last.sec {
      SameFields(c, delay, b, b + 1);
      SameFields(c, delay, b, b + 2);
      SameFields(c, delay, b, b + 3);
      SameFields(c, delay, b, b + 4);
    }
  }

  // Within a pass that does not leave its minute every access sees the same minute, hour and date.
  lemma SameFields(c: Civil, delay: nat -> nat, b: nat, i: nat)
    requires TwoDigits(c) && b <= i <= b + 5
    requires At(c, delay, b).sec + Span(delay, b) < 60
    ensures At(c, delay, i) == At(c, delay, b).(sec := At(c, delay, i).sec)
  {
    hide Ticks, Elapsed;
    AtLater(c, delay, b, i);
    AtLater(c, delay, i, b + 5);
    SameMinute(At(c, delay, b), Elapsed(delay, i) - Elapsed(delay, b));
  }

  // The returned time is exact if and only if the pass that produced it fits its last second.
  lemma ExactIff(c: Civil, delay: nat -> nat)
    requires TwoDigits(c) && Span(delay, LastPass(c, delay)) < 60
    ensures var b := LastPass(c, delay);
            ToTm(Pass(c, delay, b)) == ToTm(At(c, delay, b + 5)) <==> Span(delay, b) <= At(c, delay, b + 5).sec
  {
    PassExact(c, delay, LastPass(c, delay));
  }

  // No torn reads: if the first pass spans at most one tick, and a retry ends within the minute
  // that began with the zero second, the result is the clock's time when the seconds were last
  // read, over any rollover of minute, hour, day, month or year.
  lemma TornReadFree(c: Civil, delay: nat -> nat)
    requires TwoDigits(c)
    requires Span(delay, 0) <= 1
    requires At(c, delay, 5).sec == 0 ==> Elapsed(delay, 11) - Elapsed(delay, 5) < 60
    ensures var b := LastPass(c, delay);
            var tm, clock := ToTm(Pass(c, delay, b)), At(c, delay, b + 5);
            && tm.sec == clock.sec && tm.min == clock.min && tm.hour == clock.hour
            && tm.mday == clock.mday && tm.mon == clock.mon - 1 && tm.year == clock.year + 100
  {
    hide Ticks, Elapsed;
    if At(c, delay, 5).sec == 0 {
      AtLater(c, delay, 5, 6);
      AtLater(c, delay, 5, 11);
      AtLater(c, delay, 6, 11);
      SameMinute(At(c, delay, 5), Elapsed(delay, 11) - Elapsed(delay, 5));
      PassExact(c, delay, 6);
    } else {
      PassExact(c, delay, 0);
    }
  }

  // Two ticks during the first pass are enough for a torn result: the minute is read at
  // 23:59:59 and the seconds at 00:00:01.
  lemma TornByTwoTicks(delay: nat -> nat)
    requires forall i: nat :: delay(i) == if i == 1 then 2 else 0
    ensures var c := Civil(59, 59, 23, 31, 12, 24);
            && LastPass(c, delay) == 0 && Span(delay, 0) == 2
            && Pass(c, delay, 0) == Civil(1, 59, 0, 1, 1, 25)
            && At(c, delay, 5) == Civil(1, 0, 0, 1, 1, 25)
  {
    var c := Civil(59, 59, 23, 31, 12, 24);
    assert Ticks(c, 2) == Ticks(Tick(c), 1) == Ticks(Tick(Tick(c)), 0);
    assert Elapsed(delay, 0) == 0;
    assert Elapsed(delay, 1) == 2;
    assert Elapsed(delay, 2) == 2;
    assert Elapsed(delay, 3) == 2;
    assert Elapsed(delay, 4) == 2;
    assert Elapsed(delay, 5) == 2;
  }

  // And where they fall tells what is torn: the fields read before access k are those of the old
  // year, those read from access k on are those of the new one.
  lemma TornAtEach(delay: nat -> nat, k: nat)
    requires 1 <= k <= 5 && forall i: nat :: delay(i) == if i == k then 2 else 0
    ensures var c := Civil(59, 59, 23, 31, 12, 24);
            && LastPass(c, delay) == 0
            && Pass(c, delay, 0) == Civil(1, 59, if k <= 1 then 0 else 23, if k <= 2 then 1 else 31,
                                          if k <= 3 then 1 else 12, if k <= 4 then 25 else 24)
            && At(c, delay, 5) == Civil(1, 0, 0, 1, 1, 25)
  {
    hide Ticks;
    var c := Civil(59, 59, 23, 31, 12, 24);
    TwoTicks(c);
    forall i: nat | i <= 5
      ensures Elapsed(delay, i) == if i < k then 0 else 2
    {
      OneBurst(delay, k, 2, i);
    }
    assert Ticks(c, 0) == c by {
      NoTicks(c);
    }
  }

  lemma NoTicks(c: Civil)
    ensures Ticks(c, 0) == c
    ensures Ticks(c, 1) == Tick(c)
  {
    assert Ticks(c, 1) == Ticks(Tick(c), 0);
  }

  lemma TwoTicks(c: Civil)
    ensures Ticks(c, 2) == Tick(Tick(c))
  {
    assert Ticks(c, 2) == Ticks(Tick(c), 1) == Ticks(Tick(Tick(c)), 0);
  }

  lemma {:induction false} OneBurst(delay: nat -> nat, k: nat, n: nat, i: nat)
    requires forall j: nat :: delay(j) == if j == k then n else 0
    ensures Elapsed(delay, i) == if i < k then 0 else n
    decreases i
  {
    if i != 0 {
      OneBurst(delay, k, n, i - 1);
    }
  }

  // ---------- setting ----------

  // The clock after the six writes, one tick burst before each: seconds first, year last.
  function SetSeries(c: Civil, t: Civil, delay: nat -> nat): Civil {
    var c0 := Ticks(c, delay(0)).(sec := t.sec);
    var c1 := Ticks(c0, delay(1)).(min := t.min);
    var c2 := Ticks(c1, delay(2)).(hour := t.hour);
    var c3 := Ticks(c2, delay(3)).(mday := t.mday);
    var c4 := Ticks(c3, delay(4)).(mon := t.mon);
    Ticks(c4, delay(5)).(year := t.year)
  }

  // The fields that a caller's time puts into the registers.
  predicate Settable(t: Tm) {
    && 0 <= t.sec < 60 && 0 <= t.min < 60 && 0 <= t.hour < 24 && 1 <= t.mday <= 31 && 0 <= t.mon < 12
  }

  function ToCivil(t: Tm): Civil
    requires Settable(t) && 100 <= t.year < 200
  {
    Civil(t.sec, t.min, t.hour, t.mday, t.mon + 1, t.year - 100)
  }

  // The caller's year and month are shifted in place, whether or not the year is supported.
  method SetTime(chip: RtcChip, tm: RtcTime, delay: nat -> nat) returns (ret: Ret)
    requires Settable(tm.Fields())
    modifies chip, tm
    ensures tm.Fields() == old(tm.Fields()).(year := old(tm.year) - 100, mon := old(tm.mon) + 1)
    ensures ret == if 100 <= old(tm.year) < 200 then Ok(0) else Err(EINVAL)
    ensures chip.now == if ret.Ok? then SetSeries(old(chip.now), ToCivil(old(tm.Fields())), delay) else old(chip.now)
  {
    hide Ticks, Bin2Bcd, Bcd2Bin;
    tm.year := tm.year - 100;
    tm.mon := tm.mon + 1;
    if tm.year < 0 || tm.year >= 100 {
      return Err(EINVAL);
    }
    Decode(ToCivil(old(tm.Fields())));
    chip.Advance(delay(0));
    chip.now := chip.now.(sec := Bcd2Bin(Bin2Bcd(tm.sec)));
    chip.Advance(delay(1));
    chip.now := chip.now.(min := Bcd2Bin(Bin2Bcd(tm.min)));
    chip.Advance(delay(2));
    chip.now := chip.now.(hour := Bcd2Bin(Bin2Bcd(tm.hour)));
    chip.Advance(delay(3));
    chip.now := chip.now.(mday := Bcd2Bin(Bin2Bcd(tm.mday)));
    chip.Advance(delay(4));
    chip.now := chip.now.(mon := Bcd2Bin(Bin2Bcd(tm.mon)));
    chip.Advance(delay(5));
    chip.now := chip.now.(year := Bcd2Bin(Bin2Bcd(tm.year)));
    return Ok(0);
  }

  function SetTicks(delay: nat -> nat): nat {
    delay(1) + delay(2) + delay(3) + delay(4) + delay(5)
  }

  // If the minute does not end while the later registers are written, the clock is set to the
  // caller's time plus the seconds that passed, whatever it showed before.
  lemma SetLands(c: Civil, t: Civil, delay: nat -> nat)
    requires t.sec + SetTicks(delay) < 60
    ensures SetSeries(c, t, delay) == t.(sec := t.sec + SetTicks(delay))
  {
    hide Ticks;
    var c0 := Ticks(c, delay(0)).(sec := t.sec);
    SameMinute(c0, delay(1));
    var c1 := Ticks(c0, delay(1)).(min := t.min);
    SameMinute(c1, delay(2));
    var c2 := Ticks(c1, delay(2)).(hour := t.hour);
    SameMinute(c2, delay(3));
    var c3 := Ticks(c2, delay(3)).(mday := t.mday);
    SameMinute(c3, delay(4));
    var c4 := Ticks(c3, delay(4)).(mon := t.mon);
    SameMinute(c4, delay(5));
  }

  // Field by field: what the clock shows of the caller's time.
  lemma SetShows(c: Civil, t: Tm, delay: nat -> nat)
    requires Settable(t) && 100 <= t.year < 200 && t.sec + SetTicks(delay) < 60
    ensures var clock := SetSeries(c, ToCivil(t), delay);
            && clock.sec == t.sec + delay(1) + delay(2) + delay(3) + delay(4) + delay(5)
            && clock.min == t.min && clock.hour == t.hour
            && clock.mday == t.mday && clock.mon == t.mon + 1 && clock.year == t.year - 100
  {
    hide SetSeries;
    SetLands(c, ToCivil(t), delay);
  }

  // One tick between two writes is enough to set a wrong time, if the minute ends with it: set to
  // the last second of a year, the clock shows the turned-over value in every field that was written
  // before the tick, and the caller's value in every field written after it.
  lemma SetTornAtEach(c: Civil, delay: nat -> nat, k: nat)
    requires 1 <= k <= 5 && forall i: nat :: delay(i) == if i == k then 1 else 0
    ensures SetSeries(c, ToCivil(Tm(59, 59, 23, 31, 11, 124)), delay)
            == Civil(0, if k <= 1 then 59 else 0, if k <= 2 then 23 else 0,
                     if k <= 3 then 31 else 1, if k <= 4 then 12 else 1, 24)
  {
    hide Ticks;
    forall d: Civil
      ensures Ticks(d, 0) == d && Ticks(d, 1) == Tick(d)
    {
      NoTicks(d);
    }
  }

  // The round trip: setting a time and reading it back within the same minute yields the
  // caller's own fields, with the seconds that passed until the seconds were read.
  lemma SetThenGet(c: Civil, t: Tm, setDelay: nat -> nat, getDelay: nat -> nat)
    requires Settable(t) && 100 <= t.year < 200
    requires t.sec + SetTicks(setDelay) + Elapsed(getDelay, 11) < 60
    ensures var start := SetSeries(c, ToCivil(t), setDelay);
            var b := LastPass(start, getDelay);
            && TwoDigits(start)
            && ToTm(Pass(start, getDelay, b)) == t.(sec := t.sec + SetTicks(setDelay) + Elapsed(getDelay, b + 5))
  {
    hide Ticks, Elapsed, SetSeries;
    ElapsedMonotone(getDelay, 5, 11);
    SetLands(c, ToCivil(t), setDelay);
    var start := SetSeries(c, ToCivil(t), setDelay);
    forall i: nat | i <= 11
      ensures At(start, getDelay, i) == start.(sec := start.sec + Elapsed(getDelay, i))
    {
      ElapsedMonotone(getDelay, i, 11);
      SameMinute(start, Elapsed(getDelay, i));
    }
  }
}
