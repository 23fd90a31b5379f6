/** The watchdog driver itself: its static variables and the registers it writes, updated in the source's order. */
module Watchdog {
  import opened Kernel
  import opened Heartbeat
  import opened WatchdogModel

  class WatchdogDev {
    const cfg: Config

    var tmrMargin: int
    var wdtCount: nat
    var expectClose: int
    var openLock: bool
    var wtcon: Wtcon
    var wtdat: nat
    var wtcnt: nat
    var wtconSave: Wtcon
    var wtdatSave: nat

    constructor (cfg: Config, s: Wd)
      ensures this.cfg == cfg && State() == s
    {
      this.cfg := cfg;
      tmrMargin, wdtCount, expectClose, openLock := s.margin, s.count, s.expectClose, s.open;
      wtcon, wtdat, wtcnt := s.con, s.dat, s.cnt;
      wtconSave, wtdatSave := s.savedCon, s.savedDat;
    }

    function State(): Wd
      reads this
    {
      Wd(tmrMargin, wdtCount, expectClose, openLock, wtcon, wtdat, wtcnt, wtconSave, wtdatSave)
    }

    method Keepalive()
      modifies this`wtcnt
      ensures State() == WatchdogModel.Keepalive(old(State()))
    {
      wtcnt := wdtCount;
    }

    method Stop()
      modifies this`wtcon
      ensures State() == old(State()).(con := Stopped(old(wtcon)))
    {
      var con := wtcon;
      con := con.(enable := false, rsten := false);
      wtcon := con;
    }

    method Start()
      modifies this`wtcon, this`wtdat, this`wtcnt
      ensures State() == old(State()).(con := Started(old(wtcon), cfg.softNoboot),
                                       dat := old(wdtCount), cnt := old(wdtCount))
    {
      Stop();
      var con := wtcon;
      con := con.(enable := true, div128 := true);
      if cfg.softNoboot {
        con := con.(inten := true);
        con := con.(rsten := false);
      } else {
        con := con.(inten := false);
        con := con.(rsten := true);
      }
      wtdat := wdtCount;
      wtcnt := wdtCount;
      wtcon := con;
    }

    method SetHeartbeat(timeout: int) returns (rc: Ret)
      modifies this`tmrMargin, this`wdtCount, this`wtcon, this`wtdat
      ensures State() == AfterHeartbeat(cfg, old(State()), timeout)
      ensures rc == if SettingFor(timeout, cfg.freq).Some? then Ok(0) else Err(EINVAL)
    {
      hide Product;
      if timeout < 1 {
        return Err(EINVAL);
      }
      var count := Product(timeout, cfg.freq);
      var divisor := 1;
      QuotientFits(count, 257);
      if count >= 0x10000 {
        divisor := SearchDivisor(count);
        if count / divisor >= 0x10000 {
          return Err(EINVAL);
        }
      }
      tmrMargin := timeout;
      count := count / divisor;
      wdtCount := count;
      var con := wtcon;
      con := con.(prescale := 0);
      var x := divisor - 1;
      con := con.(prescale := x % 256, others := if x < 256 then con.others else con.others + {ABOVE_PRESCALER});
      wtdat := count;
      wtcon := con;
      return Ok(0);
    }

    method Open() returns (rc: Ret)
      modifies this
      ensures State() == Step(cfg, old(State()), Op.Open) && rc == Reply(cfg, old(State()), Op.Open)
    {
      if openLock {
        return Err(EBUSY);
      }
      openLock := true;
      expectClose := 0;
      Start();
      return Ok(0);
    }

    method Release() returns (rc: Ret)
      modifies this
      ensures State() == Step(cfg, old(State()), Op.Release) && rc == Ok(0)
    {
      if expectClose == 42 {
        Stop();
      } else {
        Keepalive();
      }
      expectClose := 0;
      openLock := false;
      return Ok(0);
    }

    method Write(data: seq<char>, fault: Option<nat>) returns (rc: Ret)
      modifies this
      ensures State() == Step(cfg, old(State()), Op.Write(data, fault))
      ensures rc == Reply(cfg, old(State()), Op.Write(data, fault))
    {
      if data != [] {
        if !cfg.nowayout {
          var i := 0;
          expectClose := 0;
          while i != |data|
            invariant 0 <= i <= |data| && !(fault.Some? && fault.value < i)
            invariant expectClose == if 'V' in data[..i] then 42 else 0
            invariant State() == old(State()).(expectClose := expectClose)
            decreases |data| - i
          {
            if fault == Some(i) {
              assert Scanned(data, fault) == data[..i];
              return Err(EFAULT);
            }
            if data[i] == 'V' {
              expectClose := 42;
            }
            assert data[..i + 1] == data[..i] + [data[i]];
            i := i + 1;
          }
          assert data[..i] == data == Scanned(data, fault);
        }
        Keepalive();
      }
      return Ok(|data|);
    }

    method IoctlSetTimeout(timeout: int, got: bool, put: bool) returns (rc: Ret, reported: Option<int>)
      modifies this
      ensures State() == Step(cfg, old(State()), SetTimeout(timeout, got, put))
      ensures rc == Reply(cfg, old(State()), SetTimeout(timeout, got, put))
      ensures reported == Reported(cfg, old(State()), SetTimeout(timeout, got, put))
    {
      if !got {
        return Err(EFAULT), None;
      }
      var heartbeat := SetHeartbeat(timeout);
      if heartbeat.Err? {
        return Err(EINVAL), None;
      }
      Keepalive();
      rc, reported := PutMargin(put);
    }

    method IoctlGetTimeout(put: bool) returns (rc: Ret, reported: Option<int>)
      ensures rc == Reply(cfg, State(), GetTimeout(put)) && reported == Reported(cfg, State(), GetTimeout(put))
    {
      rc, reported := PutMargin(put);
    }

    // put_user(tmr_margin, p)
    method PutMargin(put: bool) returns (rc: Ret, reported: Option<int>)
      ensures rc == if put then Ok(0) else Err(EFAULT)
      ensures reported == if put then Some(tmrMargin) else None
    {
      if put {
        return Ok(0), Some(tmrMargin);
      }
      return Err(EFAULT), None;
    }

    method IoctlKeepAlive() returns (rc: Ret)
      modifies this
      ensures State() == Step(cfg, old(State()), KeepAlive) && rc == Ok(0)
    {
      Keepalive();
      return Ok(0);
    }

    method Irq()
      modifies this
      ensures State() == Step(cfg, old(State()), Expire)
    {
      Keepalive();
    }

    method Suspend()
      modifies this
      ensures State() == Step(cfg, old(State()), Op.Suspend)
    {
      wtconSave := wtcon;
      wtdatSave := wtdat;
      Stop();
    }

    method Resume()
      modifies this
      ensures State() == Step(cfg, old(State()), Op.Resume)
    {
      wtdat := wtdatSave;
      wtcnt := wtdatSave;
      wtcon := wtconSave;
    }
  }
}
