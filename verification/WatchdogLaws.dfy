/** What the watchdog driver promises over whole runs. */
module WatchdogLaws {
  import opened Kernel
  import opened Heartbeat
  import opened WatchdogModel

  // ---------- magic close ----------

  // Is the device held, judging by the operations alone?
  predicate Held(initially: bool, ops: seq<Op>) {
    if ops == [] then initially
    else if Last(ops).Open? then true
    else if Last(ops).Release? then false
    else Held(initially, Before(ops))
  }

  // Does the last non-empty write since the last successful open contain a 'V' among the
  // bytes that were looked at?
  predicate Armed(initially: bool, ops: seq<Op>) {
    ops != [] &&
    match Last(ops)
    case Open => Held(initially, Before(ops)) && Armed(initially, Before(ops))
    case Release => false
    case Write(data, fault) => if data == [] then Armed(initially, Before(ops)) else 'V' in Scanned(data, fault)
    case _ => Armed(initially, Before(ops))
  }

  // Operation n of a run is a non-empty write / discards what writes before it said.
  predicate Writes(ops: seq<Op>, n: nat)
    requires n < |ops|
  {
    ops[n].Write? && ops[n].data != []
  }

  predicate Discards(initially: bool, ops: seq<Op>, n: nat)
    requires n < |ops|
  {
    Writes(ops, n) || ops[n].Release? || (ops[n].Open? && !Held(initially, ops[..n]))
  }

  // Is there a 'V' before the byte where the user's memory faults, if it does?
  predicate SeesMagic(data: seq<char>, fault: Option<nat>) {
    exists i | 0 <= i < |data| :: data[i] == 'V' && (fault.Some? ==> i < fault.value)
  }

  lemma ScannedMagic(data: seq<char>, fault: Option<nat>)
    ensures 'V' in Scanned(data, fault) <==> SeesMagic(data, fault)
  {
    var seen := Scanned(data, fault);
    if 'V' in seen {
      var i :| 0 <= i < |seen| && seen[i] == 'V';
      assert data[i] == 'V';
    }
    if SeesMagic(data, fault) {
      var i :| 0 <= i < |data| && data[i] == 'V' && (fault.Some? ==> i < fault.value);
      assert seen[i] == 'V';
    }
  }

  // Write n saw a 'V', and nothing after it discards that.
  ghost predicate ArmedBy(initially: bool, ops: seq<Op>, n: nat) {
    && n < |ops| && Writes(ops, n) && SeesMagic(ops[n].data, ops[n].fault)
    && forall m | n < m < |ops| :: !Discards(initially, ops, m)
  }

  // In one sentence: some non-empty write scanned a 'V', and no non-empty write, release or
  // successful open came later.
  lemma {:induction false} ArmedMeans(initially: bool, ops: seq<Op>)
    ensures Armed(initially, ops) <==> exists n :: ArmedBy(initially, ops, n)
    decreases |ops|
  {
    hide Scanned, SeesMagic;
    if ops != [] {
      var before, last := Before(ops), |ops| - 1;
      ArmedMeans(initially, before);
      if ops[last].Write? {
        ScannedMagic(ops[last].data, ops[last].fault);
      }
      assert ops[..last] == before;
      if Discards(initially, ops, last) {
        assert forall n: nat | n < last :: !ArmedBy(initially, ops, n);
        assert Armed(initially, ops) ==> ArmedBy(initially, ops, last);
      } else {
        assert Armed(initially, ops) == Armed(initially, before);
        forall n: nat
          ensures ArmedBy(initially, ops, n) <==> ArmedBy(initially, before, n)
        {
          ArmedBySame(initially, ops, n);
        }
      }
    }
  }

  // An operation that discards nothing leaves armed what was.
  lemma ArmedBySame(initially: bool, ops: seq<Op>, n: nat)
    requires ops != [] && !Discards(initially, ops, |ops| - 1)
    ensures ArmedBy(initially, ops, n) <==> ArmedBy(initially, Before(ops), n)
  {
    hide SeesMagic, Held;
    var before, last := Before(ops), |ops| - 1;
    if n < last {
      assert forall m | 0 <= m < last :: before[..m] == ops[..m];
      assert forall m | n < m < last :: Discards(initially, ops, m) == Discards(initially, before, m);
    }
  }

  // expect_close and open_lock know nothing but that.
  lemma {:induction false} ExpectCloseIsArmed(cfg: Config, s: Wd, ops: seq<Op>)
    requires !cfg.nowayout && s.expectClose == 0
    ensures Run(cfg, s, ops).expectClose == if Armed(s.open, ops) then MAGIC else 0
    ensures Run(cfg, s, ops).open == Held(s.open, ops)
    decreases |ops|
  {
    if ops != [] {
      ExpectCloseIsArmed(cfg, s, Before(ops));
    }
  }

  // Magic close: a release stops the timer exactly when the last non-empty write was armed;
  // otherwise it reloads the counter and leaves the timer as it was.  Either way it frees the device.
  lemma MagicClose(cfg: Config, s: Wd, ops: seq<Op>)
    requires !cfg.nowayout && s.expectClose == 0
    ensures var before, after := Run(cfg, s, ops), Run(cfg, s, ops + [Release]);
            && !after.open
            && (Armed(s.open, ops) ==> !after.con.enable && !after.con.rsten && after.cnt == before.cnt)
            && (!Armed(s.open, ops) ==> after.con == before.con && after.cnt == before.count)
            && (before.con.enable ==> (!after.con.enable <==> Armed(s.open, ops)))
  {
    ExpectCloseIsArmed(cfg, s, ops);
    assert Before(ops + [Release]) == ops;
  }

  // Release is only ever called on a device that is held.
  predicate Disciplined(initially: bool, ops: seq<Op>) {
    ops == [] || (Disciplined(initially, Before(ops)) && (Last(ops).Release? ==> Held(initially, Before(ops))))
  }

  // The opens that were answered with success, and the releases.
  function Opens(cfg: Config, s: Wd, ops: seq<Op>): nat {
    if ops == [] then 0
    else Opens(cfg, s, Before(ops)) + if Last(ops).Open? && Reply(cfg, Run(cfg, s, Before(ops)), Open).Ok? then 1 else 0
  }

  function Releases(ops: seq<Op>): nat {
    if ops == [] then 0 else Releases(Before(ops)) + if Last(ops).Release? then 1 else 0
  }

  // At most one open is outstanding at any time, and the lock bit says whether there is one.
  lemma {:induction false} OneHolder(cfg: Config, s: Wd, ops: seq<Op>)
    requires !s.open && Disciplined(false, ops)
    ensures Run(cfg, s, ops).open == Held(false, ops)
    ensures Opens(cfg, s, ops) - Releases(ops) == if Run(cfg, s, ops).open then 1 else 0
    decreases |ops|
  {
    if ops != [] {
      OneHolder(cfg, s, Before(ops));
    }
  }

  // ---------- nowayout ----------

  // The timer runs, and exactly one of reset and interrupt follows its expiry.
  predicate Guarding(cfg: Config, con: Wtcon) {
    con.enable && con.inten == cfg.softNoboot && con.rsten == !cfg.softNoboot
  }

  // With nowayout the first successful open starts the timer for good: awake it is guarding at the
  // end of every operation, and asleep its registers are saved to be so again.
  lemma {:induction false} NowayoutForGood(cfg: Config, s: Wd, ops: seq<Op>)
    requires cfg.nowayout && !s.open && Orderly([Open] + ops)
    ensures var s', all := Run(cfg, s, [Open] + ops), [Open] + ops;
            && s'.expectClose == 0
            && Guarding(cfg, if Asleep(all) then s'.savedCon else s'.con)
    decreases |ops|
  {
    var all := [Open] + ops;
    if ops != [] {
      assert Before(all) == [Open] + Before(ops) && Last(all) == Last(ops);
      NowayoutForGood(cfg, s, Before(ops));
    } else {
      assert Before(all) == [] && Last(all) == Open;
    }
  }

  // ---------- registers and variables ----------

  // WTDAT, the prescaler field and wdt_count are those of the accepted timeout tmr_margin.
  predicate Coherent(cfg: Config, margin: int, count: nat, con: Wtcon, dat: nat) {
    var chosen := SettingFor(margin, cfg.freq);
    chosen.Some? && count == chosen.value.count && dat == count && con.prescale == (chosen.value.divisor - 1) % 256
  }

  // Then the hardware divides by what the driver counted on exactly below 0x1000000.
  lemma CoherentDivisor(cfg: Config, margin: int, count: nat, con: Wtcon, dat: nat)
    requires Coherent(cfg, margin, count, con, dat)
    ensures con.prescale + 1 == SettingFor(margin, cfg.freq).value.divisor <==> Product(margin, cfg.freq) < 0x1000000
  {
    PrescalerFits(margin, cfg.freq);
  }

  // How long the hardware runs from a reload, in cycles of the clock, where the control register
  // selects the fixed division by 128: that, the prescaler field plus one, and the count.
  function RunLength(con: Wtcon, count: nat): nat
    requires con.div128
  {
    128 * ((con.prescale + 1) * count)
  }

  // Then the timer never runs longer than the accepted timeout asked for.
  lemma CoherentNeverLonger(cfg: Config, margin: int, count: nat, con: Wtcon, dat: nat)
    requires Coherent(cfg, margin, count, con, dat) && con.div128
    ensures RunLength(con, count) <= margin * cfg.freq
  {
    hide Product;
    var chosen := SettingFor(margin, cfg.freq).value;
    RequestSplit(margin, cfg.freq);
    MulMonotone(con.prescale + 1, chosen.divisor, count);
    assert 0 <= margin * (cfg.freq % 128);
  }

  // What the two divisions of an accepted timeout cut off, in cycles of the clock.
  function CutOff(margin: int, freq: nat): nat
    requires SettingFor(margin, freq).Some?
  {
    margin * (freq % 128) + 128 * (Product(margin, freq) % SettingFor(margin, freq).value.divisor)
  }

  // It falls short by that exactly if the divisor fits the prescaler field and the product does
  // not overflow.
  lemma CoherentShortfall(cfg: Config, margin: int, count: nat, con: Wtcon, dat: nat)
    requires Coherent(cfg, margin, count, con, dat) && con.div128
    ensures margin * cfg.freq - RunLength(con, count) == CutOff(margin, cfg.freq)
            <==> Product(margin, cfg.freq) < 0x1000000 && margin * (cfg.freq / 128) < U32
  {
    var c, divisor := Product(margin, cfg.freq), SettingFor(margin, cfg.freq).value.divisor;
    CoherentDivisor(cfg, margin, count, con, dat);
    LostCycles(c, margin, cfg.freq, divisor, count, con.prescale + 1);
  }

  lemma LostCycles(c: nat, margin: int, freq: nat, divisor: nat, count: nat, field: nat)
    requires SettingFor(margin, freq) == Some(Setting(divisor, count)) && c == Product(margin, freq)
    requires field == (divisor - 1) % 256 + 1 && (field == divisor <==> c < 0x1000000)
    ensures margin * freq - 128 * (field * count) == margin * (freq % 128) + 128 * (c % divisor)
            <==> c < 0x1000000 && margin * (freq / 128) < U32
  {
    RequestSplit(margin, freq);
    assert divisor * count - field * count == (divisor - field) * count;
    if field != divisor {
      assert divisor == 257 && field == 1 && 0 < count;
    }
  }

  // 43 seconds at 50 MHz are accepted with divisor 257: the field reads zero, and the timer
  // runs for less than a 200th of the request.
  lemma FieldOverflows(s: Wd)
    requires !s.open
    ensures var cfg := Config(false, false, 50_000_000);
            var s' := Step(cfg, Step(cfg, s, Open), SetTimeout(43, true, true));
            && s'.con.div128 && s'.margin == 43 && s'.con.prescale == 0 && s'.count == 65357
            && 43 * (cfg.freq / 128) < U32
            && 200 * RunLength(s'.con, s'.count) < 43 * cfg.freq
  {
    hide SettingFor, Product;
    SettingsAt50MHz();
  }

  // 11000 seconds at 50 MHz are accepted although the product overflows: the timer runs for less
  // than a 2000th of the request.
  lemma ProductOverflows(s: Wd)
    requires !s.open
    ensures var cfg := Config(false, false, 50_000_000);
            var s' := Step(cfg, Step(cfg, s, Open), SetTimeout(11000, true, true));
            && s'.con.div128 && s'.margin == 11000 && s'.con.prescale == 29 && s'.count == 63590
            && Product(11000, cfg.freq) < 0x1000000
            && 2000 * RunLength(s'.con, s'.count) < 11000 * cfg.freq
  {
    hide SettingFor, Product;
    SettingsAt50MHz();
  }

  // An accepted timeout brings coherence about from any state; a rejected one changes nothing.
  lemma HeartbeatCoherent(cfg: Config, s: Wd, timeout: int, got: bool, put: bool)
    ensures var s' := Step(cfg, s, SetTimeout(timeout, got, put));
            if got && SettingFor(timeout, cfg.freq).Some?
            then Coherent(cfg, timeout, s'.count, s'.con, s'.dat) && s'.margin == timeout
            else s' == s
  {
  }

  // And every run keeps it, through suspend, loss of all registers, and resume.
  lemma {:induction false} CoherentAlways(cfg: Config, s: Wd, ops: seq<Op>)
    requires Coherent(cfg, s.margin, s.count, s.con, s.dat) && Orderly(ops)
    ensures var s' := Run(cfg, s, ops);
            if Asleep(ops) then Coherent(cfg, s'.margin, s'.count, s'.savedCon, s'.savedDat)
            else Coherent(cfg, s'.margin, s'.count, s'.con, s'.dat)
    decreases |ops|
  {
    hide Step, Coherent;
    if ops != [] {
      CoherentAlways(cfg, s, Before(ops));
      CoherentStep(cfg, Run(cfg, s, Before(ops)), Asleep(Before(ops)), Last(ops));
    }
  }

  // What is kept by one operation that may come while awake, or while asleep.
  ghost predicate CoherentThen(cfg: Config, s: Wd, asleep: bool) {
    if asleep then Coherent(cfg, s.margin, s.count, s.savedCon, s.savedDat)
    else Coherent(cfg, s.margin, s.count, s.con, s.dat)
  }

  lemma CoherentStep(cfg: Config, s: Wd, asleep: bool, op: Op)
    requires if asleep then op.PowerLoss? || op.Tick? || op.Resume? else !op.PowerLoss? && !op.Resume?
    requires CoherentThen(cfg, s, asleep)
    ensures CoherentThen(cfg, Step(cfg, s, op), if asleep then !op.Resume? else op.Suspend?)
  {
    hide SettingFor, Product, Scanned, Faulted;
    match op
    case SetTimeout(timeout, got, put) =>
      HeartbeatCoherent(cfg, s, timeout, got, put);
    case _ =>
  }

  // The first open selects the fixed division by 128 for good: no operation clears it, and asleep it
  // is in the saved register.
  lemma {:induction false} DividesBy128(cfg: Config, s: Wd, ops: seq<Op>)
    requires !s.open && Orderly([Open] + ops)
    ensures var s', all := Run(cfg, s, [Open] + ops), [Open] + ops;
            if Asleep(all) then s'.savedCon.div128 else s'.con.div128
    decreases |ops|
  {
    hide SettingFor, Product;
    var all := [Open] + ops;
    if ops != [] {
      assert Before(all) == [Open] + Before(ops) && Last(all) == Last(ops);
      DividesBy128(cfg, s, Before(ops));
    } else {
      assert Before(all) == [] && Last(all) == Open;
    }
  }

  // ---------- the timeout in force ----------

  // Was the last of these operations a timeout that was accepted?
  ghost predicate AcceptedLast(freq: nat, ops: seq<Op>)
    requires ops != []
  {
    Last(ops).SetTimeout? && Last(ops).got && Acceptable(Last(ops).timeout, freq)
  }

  // The timeout that was accepted last, judging by the operations alone.
  ghost function LastAccepted(freq: nat, initially: int, ops: seq<Op>): int {
    if ops == [] then initially
    else if AcceptedLast(freq, ops) then Last(ops).timeout
    else LastAccepted(freq, initially, Before(ops))
  }

  ghost predicate AnyAccepted(freq: nat, ops: seq<Op>) {
    ops != [] && (AcceptedLast(freq, ops) || AnyAccepted(freq, Before(ops)))
  }

  // From any state, at the end of every run: tmr_margin is the timeout that was accepted last, and
  // wdt_count is its product divided by the least divisor that makes it fit.  No open, release,
  // write, ping, interrupt, suspend or resume touches either.
  lemma {:induction false} MarginIsLastAccepted(cfg: Config, s: Wd, ops: seq<Op>)
    ensures var s', m := Run(cfg, s, ops), LastAccepted(cfg.freq, s.margin, ops);
            && s'.margin == m
            && (1 <= s.margin ==> 1 <= s'.margin)
            && if AnyAccepted(cfg.freq, ops) then
                 var c := m * (cfg.freq / 128) % 0x1_0000_0000;
                 1 <= m && exists d: nat :: LeastFitting(c, d) && s'.count == c / d
               else
                 m == s.margin && s'.count == s.count
    decreases |ops|
  {
    hide SettingFor, Acceptable, LeastFitting;
    if ops != [] {
      MarginIsLastAccepted(cfg, s, Before(ops));
      if Last(ops).SetTimeout? {
        AcceptableIs(Last(ops).timeout, cfg.freq);
      }
    }
  }

  lemma AcceptableIs(timeout: int, freq: nat)
    ensures SettingFor(timeout, freq).Some? <==> Acceptable(timeout, freq)
    ensures Acceptable(timeout, freq) ==>
              var c := timeout * (freq / 128) % 0x1_0000_0000;
              1 <= timeout && exists d: nat :: LeastFitting(c, d) && SettingFor(timeout, freq).value.count == c / d
  {
    hide LeastFitting;
    LeastDivisor(timeout, freq);
  }

  // A timeout that cannot be set, every one below a second among them, changes nothing in any state
  // and is answered with -EINVAL, or with -EFAULT if it could not even be fetched.
  lemma RefusedTimeout(cfg: Config, s: Wd, timeout: int, got: bool, put: bool)
    requires timeout < 1 || !Acceptable(timeout, cfg.freq)
    ensures Step(cfg, s, SetTimeout(timeout, got, put)) == s
    ensures Reply(cfg, s, SetTimeout(timeout, got, put)) == Err(if got then EINVAL else EFAULT)
    ensures Reported(cfg, s, SetTimeout(timeout, got, put)) == None
  {
    LeastDivisor(timeout, cfg.freq);
  }

  lemma {:induction false} OpenIsHeld(cfg: Config, s: Wd, ops: seq<Op>)
    ensures Run(cfg, s, ops).open == Held(s.open, ops)
    decreases |ops|
  {
    hide SettingFor;
    if ops != [] {
      OpenIsHeld(cfg, s, Before(ops));
    }
  }

  // What every operation answers after every run: in terms of what was done before, of the
  // arguments, and of where user memory faults.
  lemma Answers(cfg: Config, s: Wd, ops: seq<Op>, op: Op)
    ensures var r, seen := Reply(cfg, Run(cfg, s, ops), op), Reported(cfg, Run(cfg, s, ops), op);
            match op
            case Open => r == (if Held(s.open, ops) then Err(EBUSY) else Ok(0)) && seen == None
            case Write(data, fault) =>
              && r == (if !cfg.nowayout && fault.Some? && fault.value < |data| then Err(EFAULT) else Ok(|data|))
              && seen == None
            case SetTimeout(timeout, got, put) =>
              if !got then r == Err(EFAULT) && seen == None
              else if !Acceptable(timeout, cfg.freq) then r == Err(EINVAL) && seen == None
              else if !put then r == Err(EFAULT) && seen == None
              else r == Ok(0) && seen == Some(LastAccepted(cfg.freq, s.margin, ops + [op])) == Some(timeout)
            case GetTimeout(put) =>
              if put then r == Ok(0) && seen == Some(LastAccepted(cfg.freq, s.margin, ops))
              else r == Err(EFAULT) && seen == None
            case OtherIoctl => r == Err(ENOTTY) && seen == None
            case _ => r == Ok(0) && seen == None
  {
    hide SettingFor, Acceptable, Step;
    OpenIsHeld(cfg, s, ops);
    MarginIsLastAccepted(cfg, s, ops);
    if op.SetTimeout? {
      AcceptableIs(op.timeout, cfg.freq);
      assert Last(ops + [op]) == op;
    }
  }

  // So at the end of every run that leaves the device awake, the timer runs from a reload to zero
  // for at most the timeout that was accepted last, whatever overflowed.
  lemma NeverLonger(cfg: Config, s: Wd, ops: seq<Op>)
    requires !s.open && Coherent(cfg, s.margin, s.count, s.con, s.dat)
    requires Orderly([Open] + ops) && !Asleep([Open] + ops)
    ensures var s' := Run(cfg, s, [Open] + ops);
            s'.con.div128 && RunLength(s'.con, s'.count) <= LastAccepted(cfg.freq, s.margin, [Open] + ops) * cfg.freq
  {
    hide Coherent, Run, LastAccepted;
    MarginIsLastAccepted(cfg, s, [Open] + ops);
    var s' := Run(cfg, s, [Open] + ops);
    DividesBy128(cfg, s, ops);
    CoherentAlways(cfg, s, [Open] + ops);
    CoherentNeverLonger(cfg, s'.margin, s'.count, s'.con, s'.dat);
  }

  // And it falls short of that timeout by what the two divisions cut off exactly if the divisor
  // fits the prescaler field and the product does not overflow.
  lemma ShortfallIff(cfg: Config, s: Wd, ops: seq<Op>)
    requires !s.open && Coherent(cfg, s.margin, s.count, s.con, s.dat)
    requires Orderly([Open] + ops) && !Asleep([Open] + ops)
    ensures var s', m := Run(cfg, s, [Open] + ops), LastAccepted(cfg.freq, s.margin, [Open] + ops);
            && s'.con.div128 && SettingFor(m, cfg.freq).Some?
            && (m * cfg.freq - RunLength(s'.con, s'.count) == CutOff(m, cfg.freq)
                <==> Product(m, cfg.freq) < 0x1000000 && m * (cfg.freq / 128) < U32)
  {
    hide Run, SettingFor, Product, CutOff, LastAccepted;
    MarginIsLastAccepted(cfg, s, [Open] + ops);
    var s' := Run(cfg, s, [Open] + ops);
    DividesBy128(cfg, s, ops);
    CoherentAlways(cfg, s, [Open] + ops);
    CoherentShortfall(cfg, s'.margin, s'.count, s'.con, s'.dat);
  }

  // ---------- the countdown ----------

  // Does this operation, after those, reload the counter?
  predicate Reloads(cfg: Config, s: Wd, ops: seq<Op>, op: Op) {
    match op
    case Open => !Held(s.open, ops)
    case Release => cfg.nowayout || !Armed(s.open, ops)
    case Write(data, fault) => data != [] && (cfg.nowayout || !Faulted(data, fault))
    case SetTimeout(timeout, got, _) => got && SettingFor(timeout, cfg.freq).Some?
    case KeepAlive => true
    case Expire => true
    case Resume => true
    case _ => false
  }

  // Is the timer enabled after these operations (while awake)?
  predicate Running(cfg: Config, s: Wd, ops: seq<Op>) {
    ops != [] &&
    match Last(ops)
    case Open => true
    case Release => Running(cfg, s, Before(ops)) && Reloads(cfg, s, Before(ops), Release)
    case _ => Running(cfg, s, Before(ops))
  }

  // Ticks of the running timer since the last reload.
  function Since(cfg: Config, s: Wd, ops: seq<Op>): nat {
    if ops == [] then 0
    else if Reloads(cfg, s, Before(ops), Last(ops)) then 0
    else Since(cfg, s, Before(ops)) +
         if Last(ops).Tick? && !Asleep(Before(ops)) && Running(cfg, s, Before(ops)) then 1 else 0
  }

  function Remaining(count: nat, ticks: nat): nat {
    if ticks < count then count - ticks else 0
  }

  // What the run keeps after its first successful open.
  ghost predicate Counting(cfg: Config, s: Wd, all: seq<Op>) {
    CountingFlags(cfg, s, all) && CountingTimer(cfg, s, all)
  }

  ghost predicate CountingFlags(cfg: Config, s: Wd, all: seq<Op>) {
    var s' := Run(cfg, s, all);
    && s'.open == Held(s.open, all)
    && (s'.open ==> Running(cfg, s, all))
    && s'.expectClose == if !cfg.nowayout && Armed(s.open, all) then MAGIC else 0
  }

  ghost predicate CountingTimer(cfg: Config, s: Wd, all: seq<Op>) {
    var s' := Run(cfg, s, all);
    if Asleep(all) then
      s'.savedDat == s'.count && s'.savedCon.enable == Running(cfg, s, all)
    else
      && s'.dat == s'.count && s'.con.enable == Running(cfg, s, all)
      && s'.cnt == Remaining(s'.count, Since(cfg, s, all))
  }

  lemma CountingStarts(cfg: Config, s: Wd, all: seq<Op>)
    requires !s.open && all == [Open]
    ensures Counting(cfg, s, all)
  {
    hide SettingFor, Product;
    assert Before(all) == [] && Last(all) == Open;
    assert Run(cfg, s, all) == Step(cfg, s, Open);
    assert !Held(s.open, []) && Held(s.open, all);
    assert !Armed(s.open, all) && !Asleep(all);
    assert Running(cfg, s, all) by {
      assert Last(all).Open?;
    }
    assert Since(cfg, s, all) == 0;
  }

  lemma CountingStep(cfg: Config, s: Wd, all: seq<Op>)
    requires all != [] && Orderly(all) && Counting(cfg, s, Before(all))
    ensures Counting(cfg, s, all)
  {
    hide CountingFlags, CountingTimer;
    FlagsStep(cfg, s, all);
    TimerStep(cfg, s, all);
  }

  lemma FlagsStep(cfg: Config, s: Wd, all: seq<Op>)
    requires all != [] && CountingFlags(cfg, s, Before(all))
    ensures CountingFlags(cfg, s, all)
  {
    hide SettingFor, Product, Scanned, Faulted;
    var t := Run(cfg, s, Before(all));
    assert Run(cfg, s, all) == Step(cfg, t, Last(all));
  }

  lemma TimerStep(cfg: Config, s: Wd, all: seq<Op>)
    requires all != [] && Orderly(all) && CountingFlags(cfg, s, Before(all)) && CountingTimer(cfg, s, Before(all))
    ensures CountingTimer(cfg, s, all)
  {
    hide SettingFor, Product, Scanned, Faulted;
    var p, op := Before(all), Last(all);
    var t, t' := Run(cfg, s, p), Run(cfg, s, all);
    assert t' == Step(cfg, t, op);
    match op
    case Open =>
    case Release =>
    case Write(data, fault) =>
    case SetTimeout(timeout, got, put) =>
    case Suspend =>
    case Resume =>
    case Tick =>
    case _ =>
  }

  lemma {:induction false} CountsDown(cfg: Config, s: Wd, ops: seq<Op>)
    requires !s.open && Orderly([Open] + ops)
    ensures Counting(cfg, s, [Open] + ops)
    decreases |ops|
  {
    hide Counting;
    var all := [Open] + ops;
    if ops != [] {
      assert Before(all) == [Open] + Before(ops);
      CountsDown(cfg, s, Before(ops));
      CountingStep(cfg, s, all);
    } else {
      CountingStarts(cfg, s, all);
    }
  }

  // Pinged in time: wherever the timer runs, fewer ticks than the count in force have passed
  // since the last reload.
  ghost predicate InTime(cfg: Config, s: Wd, all: seq<Op>) {
    forall n | 1 <= n <= |all| && !Asleep(all[..n]) && Running(cfg, s, all[..n]) ::
      Since(cfg, s, all[..n]) < Run(cfg, s, all[..n]).count
  }

  // Keep-alive over whole runs: the counter of the running timer never stands at zero if and
  // only if every stretch between reloads is shorter than the count in force, whatever
  // timeouts are set on the way.
  lemma KeepAliveTheorem(cfg: Config, s: Wd, ops: seq<Op>)
    requires !s.open && Orderly([Open] + ops)
    ensures var all := [Open] + ops;
            InTime(cfg, s, all) <==>
            forall n | 1 <= n <= |all| && !Asleep(all[..n]) && Run(cfg, s, all[..n]).con.enable ::
              0 < Run(cfg, s, all[..n]).cnt
  {
    var all := [Open] + ops;
    forall n | 1 <= n <= |all|
      ensures Counting(cfg, s, all[..n])
    {
      OrderlyPrefix(all, n);
      assert all[..n] == [Open] + ops[..n - 1];
      CountsDown(cfg, s, ops[..n - 1]);
    }
  }

  lemma {:induction false} OrderlyPrefix(ops: seq<Op>, n: nat)
    requires Orderly(ops) && n <= |ops|
    ensures Orderly(ops[..n])
    decreases |ops|
  {
    if n < |ops| {
      OrderlyPrefix(Before(ops), n);
      assert Before(ops)[..n] == ops[..n];
    } else {
      assert ops[..n] == ops;
    }
  }
  // ---------- what the declarative words mean ----------

  // Operation n is a release that stops the timer.
  predicate Stops(cfg: Config, initially: bool, ops: seq<Op>, n: nat)
    requires n < |ops|
  {
    ops[n].Release? && !cfg.nowayout && Armed(initially, ops[..n])
  }

  // Open n started the timer, or found it running, and no release has stopped it since.
  ghost predicate StartedBy(cfg: Config, initially: bool, ops: seq<Op>, n: nat) {
    && n < |ops| && ops[n].Open?
    && forall m | n < m < |ops| :: !Stops(cfg, initially, ops, m)
  }

  lemma {:induction false} RunningMeans(cfg: Config, s: Wd, ops: seq<Op>)
    ensures Running(cfg, s, ops) <==> exists n :: StartedBy(cfg, s.open, ops, n)
    decreases |ops|
  {
    hide Armed;
    if ops != [] {
      var before, last := Before(ops), |ops| - 1;
      assert ops[..last] == before;
      RunningMeans(cfg, s, before);
      if ops[last].Open? {
        assert StartedBy(cfg, s.open, ops, last);
      } else if Stops(cfg, s.open, ops, last) {
        assert forall n: nat | n < last :: !StartedBy(cfg, s.open, ops, n);
      } else {
        forall n: nat
          ensures StartedBy(cfg, s.open, ops, n) <==> StartedBy(cfg, s.open, before, n)
        {
          StartedBySame(cfg, s.open, ops, n);
        }
      }
    }
  }

  // An operation that neither starts nor stops the timer leaves started what was.
  lemma StartedBySame(cfg: Config, initially: bool, ops: seq<Op>, n: nat)
    requires ops != [] && !Last(ops).Open? && !Stops(cfg, initially, ops, |ops| - 1)
    ensures StartedBy(cfg, initially, ops, n) <==> StartedBy(cfg, initially, Before(ops), n)
  {
    hide Armed;
    var before, last := Before(ops), |ops| - 1;
    if n < last {
      assert forall m | 0 <= m < last :: before[..m] == ops[..m];
      assert forall m | n < m < last :: Stops(cfg, initially, ops, m) == Stops(cfg, initially, before, m);
    }
  }

  // Exactly these operations reload the counter: an open of a device that is not held, a release
  // that does not stop the timer, a non-empty write that does not fault or is not looked at, an
  // accepted timeout, a ping, the expiry interrupt, and resume.
  lemma ReloadsExactly(cfg: Config, s: Wd, ops: seq<Op>, op: Op)
    ensures Reloads(cfg, s, ops, op) <==>
              || (op.Open? && !Held(s.open, ops))
              || (op.Release? && !Stops(cfg, s.open, ops + [op], |ops|))
              || (op.Write? && op.data != [] && (cfg.nowayout || !(op.fault.Some? && op.fault.value < |op.data|)))
              || (op.SetTimeout? && op.got && Acceptable(op.timeout, cfg.freq))
              || op.KeepAlive? || op.Expire? || op.Resume?
  {
    hide SettingFor, Acceptable, Armed;
    if op.SetTimeout? {
      AcceptableIs(op.timeout, cfg.freq);
    }
    assert (ops + [op])[..|ops|] == ops;
  }

  // Was any timeout accepted whose divisor does not fit the prescaler field?
  ghost predicate AnyOverflow(freq: nat, ops: seq<Op>) {
    ops != [] &&
    ((AcceptedLast(freq, ops) && Last(ops).timeout * (freq / 128) % 0x1_0000_0000 >= 0x1000000)
     || AnyOverflow(freq, Before(ops)))
  }

  // The control register that counts: the saved one while asleep.
  ghost function Control(cfg: Config, s: Wd, ops: seq<Op>): Wtcon {
    if Asleep(ops) then Run(cfg, s, ops).savedCon else Run(cfg, s, ops).con
  }

  // What every run keeps of the control register, besides enable.
  ghost predicate Controlled(cfg: Config, con: Wtcon, others: set<nat>, overflow: bool) {
    && con.div128 && con.inten == cfg.softNoboot
    && con.rsten == (con.enable && !cfg.softNoboot)
    && con.others == others + if overflow then {16} else {}
  }

  lemma ControlStep(cfg: Config, s: Wd, ops: seq<Op>, others: set<nat>)
    requires ops != [] && Orderly(ops)
    requires Controlled(cfg, Control(cfg, s, Before(ops)), others, AnyOverflow(cfg.freq, Before(ops)))
    ensures Controlled(cfg, Control(cfg, s, ops), others, AnyOverflow(cfg.freq, ops))
  {
    hide SettingFor, Acceptable, Product;
    if Last(ops).SetTimeout? {
      AcceptableIs(Last(ops).timeout, cfg.freq);
      if SettingFor(Last(ops).timeout, cfg.freq).Some? {
        OverflowIs(Last(ops).timeout, cfg.freq);
      }
    }
  }

  lemma OverflowIs(timeout: int, freq: nat)
    requires SettingFor(timeout, freq).Some?
    ensures SettingFor(timeout, freq).value.divisor >= 1
    ensures SettingFor(timeout, freq).value.divisor - 1 < 256 <==> timeout * (freq / 128) % 0x1_0000_0000 < 0x1000000
  {
    PrescalerFits(timeout, freq);
  }

  lemma {:induction false} ControlKept(cfg: Config, s: Wd, ops: seq<Op>)
    requires !s.open && Orderly([Open] + ops)
    ensures Controlled(cfg, Control(cfg, s, [Open] + ops), s.con.others, AnyOverflow(cfg.freq, [Open] + ops))
    decreases |ops|
  {
    hide Controlled, Control, AnyOverflow;
    var all := [Open] + ops;
    if ops != [] {
      assert Before(all) == [Open] + Before(ops);
      ControlKept(cfg, s, Before(ops));
      ControlStep(cfg, s, all, s.con.others);
    } else {
      ControlStarts(cfg, s, all);
    }
  }

  lemma ControlStarts(cfg: Config, s: Wd, all: seq<Op>)
    requires !s.open && all == [Open]
    ensures Controlled(cfg, Control(cfg, s, all), s.con.others, AnyOverflow(cfg.freq, all))
  {
    assert Before(all) == [] && Last(all) == Open;
    assert Run(cfg, s, all) == Step(cfg, s, Open);
    assert !Asleep(all) && !AnyOverflow(cfg.freq, all);
  }

  // The whole control register over every run from the first open, in its saved copy while asleep.
  // The timer is enabled exactly if some open was not followed by a release that stops it; reset
  // follows expiry exactly where it is enabled and soft_noboot is not set, the interrupt exactly
  // where soft_noboot is set; and no other bit changes, but that a divisor of 257 sets the one just
  // above the prescaler field, for good.
  lemma ControlAlways(cfg: Config, s: Wd, ops: seq<Op>)
    requires !s.open && Orderly([Open] + ops)
    ensures var all, con := [Open] + ops, Control(cfg, s, [Open] + ops);
            && (con.enable <==> exists n :: StartedBy(cfg, false, all, n))
            && con.rsten == (con.enable && !cfg.softNoboot) && con.inten == cfg.softNoboot && con.div128
            && con.others == s.con.others + if AnyOverflow(cfg.freq, all) then {16} else {}
  {
    hide Run, AnyOverflow, StartedBy;
    ControlKept(cfg, s, ops);
    CountsDown(cfg, s, ops);
    RunningMeans(cfg, s, [Open] + ops);
  }

  // ---------- sleep ----------

  // While asleep the timer is off unless the registers are lost, and then they may hold anything.
  // Whatever happened to them, resume brings both back and reloads the counter.
  lemma {:induction false} SleepRestores(cfg: Config, s: Wd, lost: seq<Op>)
    requires forall op <- lost :: op.PowerLoss? || op.Tick?
    ensures var z := Run(cfg, s, [Suspend] + lost);
            && z.savedCon == s.con && z.savedDat == s.dat
            && z.margin == s.margin && z.count == s.count && z.open == s.open && z.expectClose == s.expectClose
            && ((forall op <- lost :: op.Tick?) ==>
                  z.con == s.con.(enable := false, rsten := false) && z.dat == s.dat && z.cnt == s.cnt)
            && Step(cfg, z, Resume) == z.(con := s.con, dat := s.dat, cnt := s.dat)
    decreases |lost|
  {
    hide SettingFor;
    var all := [Suspend] + lost;
    if lost != [] {
      assert Last(lost) in lost && forall op <- Before(lost) :: op in lost;
      assert Run(cfg, s, all) == Step(cfg, Run(cfg, s, [Suspend] + Before(lost)), Last(lost)) by {
        assert Before(all) == [Suspend] + Before(lost);
      }
      assert Before(all) == [Suspend] + Before(lost) && Last(all) == Last(lost);
      SleepRestores(cfg, s, Before(lost));
    } else {
      assert Before(all) == [] && Last(all) == Suspend;
    }
  }
}
