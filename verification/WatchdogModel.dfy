/** The watchdog driver as a state machine: one step per operation, over its variables and registers. */
module WatchdogModel {
  import opened Kernel
  import opened Heartbeat

  // The control register: the bits the driver names, an 8-bit prescaler field, and the
  // positions of whatever other bits are set.
  datatype Wtcon = Wtcon(enable: bool, rsten: bool, inten: bool, div128: bool, prescale: nat, others: set<nat>)

  // The bit just above the prescaler field.
  const ABOVE_PRESCALER: nat := 16

  const MAGIC: int := 42

  datatype Wd = Wd(
    margin: int, count: nat, expectClose: int, open: bool,  // tmr_margin, wdt_count, expect_close, open_lock
    con: Wtcon, dat: nat, cnt: nat,                         // WTCON, WTDAT, WTCNT
    savedCon: Wtcon, savedDat: nat)                         // wtcon_save, wtdat_save

  // Module parameters, and the clock rate.
  datatype Config = Config(nowayout: bool, softNoboot: bool, freq: nat)

  datatype Op =
    | Open
    | Release
    | Write(data: seq<char>, fault: Option<nat>)      // where get_user faults, if it does
    | KeepAlive
    | SetTimeout(timeout: int, got: bool, put: bool)  // whether get_user and put_user succeed
    | GetTimeout(put: bool)
    | OtherIoctl
    | Expire                                          // the expiry interrupt
    | Suspend
    | PowerLoss(con: Wtcon, dat: nat, cnt: nat)       // the registers come back with arbitrary contents
    | Resume
    | Tick                                            // the hardware counts down

  function Keepalive(s: Wd): Wd {
    s.(cnt := s.count)
  }

  function Stopped(con: Wtcon): Wtcon {
    con.(enable := false, rsten := false)
  }

  function Started(con: Wtcon, softNoboot: bool): Wtcon {
    con.(enable := true, div128 := true, inten := softNoboot, rsten := !softNoboot)
  }

  // Clear the prescaler field, then or the shifted value in: what exceeds the field lands above it.
  function Prescaled(con: Wtcon, x: nat): Wtcon {
    con.(prescale := x % 256, others := if x < 256 then con.others else con.others + {ABOVE_PRESCALER})
  }

  function AfterHeartbeat(cfg: Config, s: Wd, timeout: int): Wd {
    match SettingFor(timeout, cfg.freq)
    case None => s
    case Some(chosen) =>
      s.(margin := timeout, count := chosen.count, dat := chosen.count, con := Prescaled(s.con, chosen.divisor - 1))
  }

  // The bytes that a write looks at: all, or those before the fault.
  function Scanned(data: seq<char>, fault: Option<nat>): (r: seq<char>)
    ensures r <= data
  {
    if fault.Some? && fault.value < |data| then data[..fault.value] else data
  }

  function Faulted(data: seq<char>, fault: Option<nat>): bool {
    fault.Some? && fault.value < |data|
  }

  function Step(cfg: Config, s: Wd, op: Op): Wd {
    match op
    case Open =>
      if s.open then s
      else s.(open := true, expectClose := 0, con := Started(s.con, cfg.softNoboot), dat := s.count, cnt := s.count)
    case Release =>
      var s' := if s.expectClose == MAGIC then s.(con := Stopped(s.con)) else Keepalive(s);
      s'.(expectClose := 0, open := false)
    case Write(data, fault) =>
      if data == [] then s
      else if cfg.nowayout then Keepalive(s)
      else
        var s' := s.(expectClose := if 'V' in Scanned(data, fault) then MAGIC else 0);
        if Faulted(data, fault) then s' else Keepalive(s')
    case KeepAlive => Keepalive(s)
    case SetTimeout(timeout, got, put) =>
      if got && SettingFor(timeout, cfg.freq).Some? then Keepalive(AfterHeartbeat(cfg, s, timeout)) else s
    case GetTimeout(put) => s
    case OtherIoctl => s
    case Expire => Keepalive(s)
    case Suspend => s.(savedCon := s.con, savedDat := s.dat, con := Stopped(s.con))
    case PowerLoss(con, dat, cnt) => s.(con := con, dat := dat, cnt := cnt)
    case Resume => s.(dat := s.savedDat, cnt := s.savedDat, con := s.savedCon)
    case Tick => if s.con.enable && 0 < s.cnt then s.(cnt := s.cnt - 1) else s
  }

  // What the operation answers.
  function Reply(cfg: Config, s: Wd, op: Op): Ret {
    match op
    case Open => if s.open then Err(EBUSY) else Ok(0)
    case Write(data, fault) => if !cfg.nowayout && Faulted(data, fault) then Err(EFAULT) else Ok(|data|)
    case SetTimeout(timeout, got, put) =>
      if !got then Err(EFAULT)
      else if SettingFor(timeout, cfg.freq).None? then Err(EINVAL)
      else if put then Ok(0) else Err(EFAULT)
    case GetTimeout(put) => if put then Ok(0) else Err(EFAULT)
    case OtherIoctl => Err(ENOTTY)
    case _ => Ok(0)
  }

  // The timeout that the operation reports to its caller, if it does.
  function Reported(cfg: Config, s: Wd, op: Op): Option<int> {
    match op
    case SetTimeout(timeout, got, put) =>
      if got && SettingFor(timeout, cfg.freq).Some? && put then Some(timeout) else None
    case GetTimeout(put) => if put then Some(s.margin) else None
    case _ => None
  }

  // ---------- runs ----------

  function Before(ops: seq<Op>): seq<Op>
    requires ops != []
  {
    ops[..|ops| - 1]
  }

  function Last(ops: seq<Op>): Op
    requires ops != []
  {
    ops[|ops| - 1]
  }

  function Run(cfg: Config, s: Wd, ops: seq<Op>): Wd {
    if ops == [] then s else Step(cfg, Run(cfg, s, Before(ops)), Last(ops))
  }

  // Between suspend and resume nothing runs but the hardware.
  predicate Asleep(ops: seq<Op>) {
    ops != [] && (Last(ops).Suspend? || (!Last(ops).Resume? && Asleep(Before(ops))))
  }

  predicate Orderly(ops: seq<Op>) {
    ops != [] ==>
      && Orderly(Before(ops))
      && if Asleep(Before(ops)) then Last(ops).PowerLoss? || Last(ops).Tick? || Last(ops).Resume?
         else !Last(ops).PowerLoss? && !Last(ops).Resume?
  }
}
