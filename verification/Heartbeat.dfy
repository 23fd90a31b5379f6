/** The arithmetic of watchdog_set_heartbeat: the timer count of a timeout, and the prescaler divisor it needs. */
module Heartbeat {
  import opened Kernel

  const COUNT_LIMIT: nat := 0x10000  // what the 16-bit count register cannot hold

  // The source's 32-bit product of the timeout and the clock rate divided by 128.
  function Product(timeout: nat, freq: nat): (c: nat)
    ensures c < U32
  {
    timeout * (freq / 128) % U32
  }

  datatype Setting = Setting(divisor: nat, count: nat)

  // The setting for a timeout, or None where the source answers -EINVAL.
  function SettingFor(timeout: int, freq: nat): (r: Option<Setting>) {
    if timeout < 1 || Product(timeout, freq) >= 257 * COUNT_LIMIT then
      None
    else
      var c := Product(timeout, freq);
      Some(Setting(c / COUNT_LIMIT + 1, c / (c / COUNT_LIMIT + 1)))
  }

  lemma QuotientFits(c: nat, d: nat)
    requires 0 < d
    ensures c / d < COUNT_LIMIT <==> c / COUNT_LIMIT < d
  {
    DivModIdentity(c, d);
    DivModIdentity(c, COUNT_LIMIT);
    if c / d < COUNT_LIMIT {
      MulMonotone(c / d + 1, COUNT_LIMIT, d);
      assert (c / d + 1) * d == c / d * d + d;
      assert c < COUNT_LIMIT * d;
    } else {
      MulMonotone(COUNT_LIMIT, c / d, d);
      assert COUNT_LIMIT * d <= c;
    }
  }

  // The source's linear search.  It leaves the loop with the least divisor up to 256 that
  // brings the count below the limit, and with 257 if there is none.
  method SearchDivisor(count: nat) returns (divisor: nat)
    ensures 1 <= divisor <= 257
    ensures forall d | 1 <= d < divisor :: count / d >= COUNT_LIMIT
    ensures divisor <= 256 ==> count / divisor < COUNT_LIMIT
    ensures divisor == if count < 257 * COUNT_LIMIT then count / COUNT_LIMIT + 1 else 257
  {
    divisor := 1;
    while divisor <= 0x100
      invariant 1 <= divisor <= 257
      invariant forall d | 1 <= d < divisor :: count / d >= COUNT_LIMIT
      invariant divisor <= count / COUNT_LIMIT + 1
    {
      QuotientFits(count, divisor);
      if count / divisor < COUNT_LIMIT {
        break;
      }
      divisor := divisor + 1;
    }
  }

  // A timeout that can be set: at least one second, and some divisor up to 257 makes its 32-bit
  // product with the divided clock rate fit the count register.
  ghost predicate Acceptable(timeout: int, freq: nat) {
    1 <= timeout && exists d: nat :: 1 <= d <= 257 && timeout * (freq / 128) % 0x1_0000_0000 / d < 0x10000
  }

  // The least divisor that makes a product fit.
  ghost predicate LeastFitting(c: nat, d: nat) {
    && 1 <= d <= 257 && c / d < 0x10000
    && forall e: nat | 1 <= e < d :: c / e >= 0x10000
  }

  // Any integer at all is accepted exactly when it can be set, and the setting uses the least
  // divisor.
  lemma LeastDivisor(timeout: int, freq: nat)
    ensures SettingFor(timeout, freq).Some? <==> Acceptable(timeout, freq)
    ensures var s := SettingFor(timeout, freq);
            s.Some? ==>
              var c := timeout * (freq / 128) % 0x1_0000_0000;
              LeastFitting(c, s.value.divisor) && s.value.count == c / s.value.divisor
  {
    if timeout < 1 {
      return;
    }
    var c := Product(timeout, freq);
    forall d: nat | 1 <= d
      ensures c / d < COUNT_LIMIT <==> c / COUNT_LIMIT < d
    {
      QuotientFits(c, d);
    }
    if c < 257 * COUNT_LIMIT {
      assert c / (c / COUNT_LIMIT + 1) < COUNT_LIMIT;
    }
  }

  // divisor - 1 fits the 8-bit prescaler field exactly below 0x1000000: the search may end at 257.
  lemma PrescalerFits(timeout: int, freq: nat)
    requires SettingFor(timeout, freq).Some?
    ensures SettingFor(timeout, freq).value.divisor - 1 < 256 <==> Product(timeout, freq) < 0x1000000
  {
  }

  // Where the requested clock cycles go: into the driver's own setting, and into what its two
  // divisions and the 32-bit product cut off.
  lemma RequestSplit(timeout: int, freq: nat)
    requires SettingFor(timeout, freq).Some?
    ensures var s, c := SettingFor(timeout, freq).value, Product(timeout, freq);
            && c <= timeout * (freq / 128)
            && (c == timeout * (freq / 128) <==> timeout * (freq / 128) < U32)
            && timeout * freq ==
                 128 * (s.divisor * s.count) + 128 * (c % s.divisor)
                 + 128 * (timeout * (freq / 128) - c) + timeout * (freq % 128)
  {
    var s, c := SettingFor(timeout, freq).value, Product(timeout, freq);
    DivModIdentity(c, s.divisor);
    assert s.divisor * s.count == c - c % s.divisor;
    Regroup(timeout, freq / 128, freq % 128);
    ProductBelow(timeout * (freq / 128));
  }

  lemma Regroup(timeout: int, q: nat, r: nat)
    ensures timeout * (128 * q + r) == 128 * (timeout * q) + timeout * r
  {
  }

  lemma ProductBelow(p: int)
    requires 0 <= p
    ensures p % U32 <= p && (p % U32 == p <==> p < U32)
  {
  }

  // When the prescaler is needed the count keeps at least 15 significant bits, so rounding by
  // the divisor loses less than one part in 32768.
  lemma RoundingLoss(timeout: int, freq: nat)
    requires SettingFor(timeout, freq).Some?
    requires Product(timeout, freq) >= COUNT_LIMIT
    ensures var s, c := SettingFor(timeout, freq).value, Product(timeout, freq);
            s.count >= 32768 && 32768 * (c % s.divisor) < c
  {
    var s, c := SettingFor(timeout, freq).value, Product(timeout, freq);
    DivModIdentity(c, s.divisor);
    assert (s.count + 1) * s.divisor == s.count * s.divisor + s.divisor;
    if s.count < 32768 {
      MulMonotone(s.count + 1, 32768, s.divisor);
    }
    MulMonotone(32768, s.count, s.divisor);
  }

  // Two accepted settings at a clock of 50 MHz: one needs divisor 257, one comes from a product
  // that overflowed.
  lemma SettingsAt50MHz()
    ensures Product(43, 50_000_000) == 16796875 && SettingFor(43, 50_000_000) == Some(Setting(257, 65357))
    ensures Product(11000, 50_000_000) == 1907704 && SettingFor(11000, 50_000_000) == Some(Setting(30, 63590))
  {
    assert Product(43, 50_000_000) == 43 * 390625 == 16796875;
    assert Product(11000, 50_000_000) == 11000 * 390625 - U32 == 1907704;
  }
}
