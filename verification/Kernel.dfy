/** Types every driver model uses: optional values, error codes, call results and bytes. */
module Kernel {
  datatype Option<+T> = None | Some(value: T)

  datatype Errno = EINVAL | EFAULT | ERESTARTSYS | EBUSY | EAGAIN | ENOTTY

  // What a file operation hands back: a non-negative count, or a negative errno.
  datatype Ret = Ok(n: nat) | Err(errno: Errno)

  const U32: nat := 0x1_0000_0000

  newtype byte = x: int | 0 <= x < 256

  function Min(a: nat, b: nat): (r: nat)
    ensures r <= a && r <= b && (r == a || r == b)
  {
    if a <= b then a else b
  }

  function Max(a: nat, b: nat): (r: nat)
    ensures a <= r && b <= r && (r == a || r == b)
  {
    if a <= b then b else a
  }

  // Quotient and remainder by repeated subtraction.  Models count with these; the divisions of
  // the sources are tied to them by DivMod.
  function Quot(a: nat, d: nat): nat
    requires 0 < d
    decreases a
  {
    if a < d then 0 else Quot(a - d, d) + 1
  }

  function Rem(a: nat, d: nat): (r: nat)
    requires 0 < d
    ensures r < d
    decreases a
  {
    if a < d then a else Rem(a - d, d)
  }

  lemma {:induction false} QuotRem(a: nat, d: nat)
    requires 0 < d
    ensures a == Quot(a, d) * d + Rem(a, d)
    decreases a
  {
    if d <= a {
      QuotRem(a - d, d);
      assert (Quot(a - d, d) + 1) * d == Quot(a - d, d) * d + d;
    }
  }

  lemma DivMod(a: nat, d: nat)
    requires 0 < d
    ensures a / d == Quot(a, d) && a % d == Rem(a, d)
  {
    QuotRem(a, d);
    DivModUnique(a, d, Quot(a, d), Rem(a, d));
  }

  // Moving n on without passing the next multiple of d.
  lemma {:induction false} SameQuotient(a: nat, d: nat, n: nat)
    requires 0 < d && Rem(a, d) + n < d
    ensures Quot(a + n, d) == Quot(a, d) && Rem(a + n, d) == Rem(a, d) + n
    decreases a
  {
    if d <= a {
      SameQuotient(a - d, d, n);
      assert a + n - d == a - d + n;
    }
  }

  // Moving on exactly to the next multiple of d.
  lemma {:induction false} NextQuotient(a: nat, d: nat, n: nat)
    requires 0 < d && Rem(a, d) + n == d
    ensures Quot(a + n, d) == Quot(a, d) + 1 && Rem(a + n, d) == 0
    decreases a
  {
    if d <= a {
      NextQuotient(a - d, d, n);
      assert a + n - d == a - d + n;
    }
  }

  lemma {:induction false} EqualQuotients(a: nat, b: nat, d: nat)
    requires 0 < d && Quot(a, d) == Quot(b, d)
    ensures a - b == Rem(a, d) - Rem(b, d)
    decreases a
  {
    if d <= a {
      EqualQuotients(a - d, b - d, d);
    }
  }

  lemma {:induction false} QuotMonotone(a: nat, b: nat, d: nat)
    requires 0 < d && a <= b
    ensures Quot(a, d) <= Quot(b, d)
    decreases a
  {
    if d <= a {
      QuotMonotone(a - d, b - d, d);
    }
  }

  lemma MulMonotone(a: nat, b: nat, c: nat)
    requires a <= b
    ensures a * c <= b * c
  {
  }

  lemma DivModIdentity(a: nat, d: nat)
    requires 0 < d
    ensures a == a / d * d + a % d
    ensures 0 <= a / d && 0 <= a % d < d
  {
  }

  lemma QuotientUnique(d: nat, q: nat, r: nat, q': nat, r': nat)
    requires r < d && r' < d && q * d + r == q' * d + r'
    ensures q == q' && r == r'
  {
    assert (q + 1) * d == q * d + d && (q' + 1) * d == q' * d + d;
    if q < q' {
      MulMonotone(q + 1, q', d);
    } else if q' < q {
      MulMonotone(q' + 1, q, d);
    }
  }

  // Division is determined by its defining equation.
  lemma DivModUnique(a: nat, d: nat, q: nat, r: nat)
    requires 0 < d && r < d && a == q * d + r
    ensures a / d == q && a % d == r
  {
    DivModIdentity(a, d);
    QuotientUnique(d, q, r, a / d, a % d);
  }
}
