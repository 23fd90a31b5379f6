/** Opening and closing the key device: one interrupt line per table entry, all or none. */
module KeyIrqs {
  import opened Kernel

  // The registered handlers: which table entry owns an interrupt line.
  type Handlers = map<int, nat>

  // The handlers after the first n entries have been requested with success.
  function Requested(h: Handlers, irqs: seq<int>, n: nat): Handlers
    requires n <= |irqs|
  {
    if n == 0 then h
    else
      var g := Requested(h, irqs, n - 1);
      if irqs[n - 1] < 0 then g else g[irqs[n - 1] := n - 1]
  }

  // Every one of the first n entries that has a line gets it: the kernel grants it and it is free.
  ghost predicate Granted(h: Handlers, irqs: seq<int>, grants: seq<bool>, n: nat)
    requires n <= |irqs| == |grants|
  {
    forall k | 0 <= k < n && 0 <= irqs[k] :: grants[k] && irqs[k] !in Requested(h, irqs, k)
  }

  // The handlers after close has freed the first n entries.
  function Freed(h: Handlers, irqs: seq<int>, n: nat): Handlers
    requires n <= |irqs|
  {
    if n == 0 then h
    else
      var g := Freed(h, irqs, n - 1);
      if 0 <= irqs[n - 1] && irqs[n - 1] in g && g[irqs[n - 1]] == n - 1 then g - {irqs[n - 1]} else g
  }

  class IrqTable {
    var handlers: Handlers
    const irqs: seq<int>  // button_irqs[i].irq

    constructor (handlers: Handlers, irqs: seq<int>)
      ensures this.handlers == handlers && this.irqs == irqs
    {
      this.handlers := handlers;
      this.irqs := irqs;
    }

    // request_irq: a line that is taken cannot be shared.
    method Request(irq: int, entry: nat, grant: bool) returns (ok: bool)
      modifies this
      ensures ok <==> grant && irq !in old(handlers)
      ensures handlers == if ok then old(handlers)[irq := entry] else old(handlers)
    {
      ok := grant && irq !in handlers;
      if ok {
        handlers := handlers[irq := entry];
      }
    }

    method Free(irq: int, entry: nat)
      modifies this
      ensures handlers == if irq in old(handlers) && old(handlers)[irq] == entry then old(handlers) - {irq}
                          else old(handlers)
    {
      if irq in handlers && handlers[irq] == entry {
        handlers := handlers - {irq};
      }
    }

    // s3c24xx_buttons_open: on any failure the handlers are exactly what they were.
    method Open(grants: seq<bool>) returns (ret: Ret)
      requires |grants| == |irqs|
      modifies this
      ensures ret == if Granted(old(handlers), irqs, grants, |irqs|) then Ok(0) else Err(EBUSY)
      ensures handlers == if ret.Ok? then Requested(old(handlers), irqs, |irqs|) else old(handlers)
    {
      var i := 0;
      var err := false;
      while i < |irqs|
        invariant 0 <= i <= |irqs| && !err
        invariant handlers == Requested(old(handlers), irqs, i)
        invariant Granted(old(handlers), irqs, grants, i)
      {
        if 0 <= irqs[i] {
          var ok := Request(irqs[i], i, grants[i]);
          err := !ok;
          if err {
            break;
          }
        }
        i := i + 1;
      }
      if err {
        assert !Granted(old(handlers), irqs, grants, |irqs|);
        i := i - 1;
        while i >= 0
          invariant -1 <= i < |irqs|
          invariant handlers == Requested(old(handlers), irqs, i + 1)
          invariant Granted(old(handlers), irqs, grants, i + 1)
        {
          if 0 <= irqs[i] {
            Free(irqs[i], i);
            assert handlers == Requested(old(handlers), irqs, i);
          }
          i := i - 1;
        }
        return Err(EBUSY);
      }
      return Ok(0);
    }

    // s3c24xx_buttons_close
    method Close()
      modifies this
      ensures handlers == Freed(old(handlers), irqs, |irqs|)
    {
      var i := 0;
      while i < |irqs|
        invariant 0 <= i <= |irqs|
        invariant handlers == Freed(old(handlers), irqs, i)
      {
        if 0 <= irqs[i] {
          Free(irqs[i], i);
        }
        i := i + 1;
      }
    }
  }

  // ---------- open then close ----------

  // A line that is not among the first n entries is left alone.
  lemma {:induction false} RequestedElsewhere(h: Handlers, irqs: seq<int>, n: nat, q: int)
    requires n <= |irqs| && forall j | 0 <= j < n && 0 <= irqs[j] :: irqs[j] != q
    ensures q in Requested(h, irqs, n) <==> q in h
    ensures q in h ==> Requested(h, irqs, n)[q] == h[q]
    decreases n
  {
    if n != 0 {
      RequestedElsewhere(h, irqs, n - 1, q);
    }
  }

  // A granted entry owns its line.
  lemma {:induction false} RequestedOwner(h: Handlers, irqs: seq<int>, grants: seq<bool>, n: nat, j: nat)
    requires j < n <= |irqs| == |grants| && Granted(h, irqs, grants, n) && 0 <= irqs[j]
    ensures irqs[j] in Requested(h, irqs, n) && Requested(h, irqs, n)[irqs[j]] == j && irqs[j] !in h
    decreases n
  {
    if j < n - 1 {
      RequestedOwner(h, irqs, grants, n - 1, j);
    } else {
      RequestedKeeps(h, irqs, j, irqs[j]);
    }
  }

  lemma {:induction false} RequestedKeeps(h: Handlers, irqs: seq<int>, n: nat, q: int)
    requires n <= |irqs|
    ensures q in h ==> q in Requested(h, irqs, n)
    decreases n
  {
    if n != 0 {
      RequestedKeeps(h, irqs, n - 1, q);
    }
  }

  // Does one of the first n entries own this line?
  predicate OwnedBy(h: Handlers, irqs: seq<int>, n: nat, q: int)
    requires n <= |irqs|
  {
    q in h && 0 <= q && exists k | 0 <= k < n :: irqs[k] == q && h[q] == k
  }

  // From any handlers a close removes exactly the lines that the table's entries own.
  lemma {:induction false} FreedExactly(h: Handlers, irqs: seq<int>, n: nat, q: int)
    requires n <= |irqs|
    ensures q in Freed(h, irqs, n) <==> q in h && !OwnedBy(h, irqs, n, q)
    ensures q in Freed(h, irqs, n) ==> Freed(h, irqs, n)[q] == h[q]
    decreases n
  {
    if n != 0 {
      FreedExactly(h, irqs, n - 1, q);
    }
  }

  // Open succeeds exactly if every entry that has a line is granted it, nobody holds it, and no
  // earlier entry of the table has the same one.
  lemma GrantedIff(h: Handlers, irqs: seq<int>, grants: seq<bool>)
    requires |irqs| == |grants|
    ensures Granted(h, irqs, grants, |irqs|) <==>
              forall k | 0 <= k < |irqs| && 0 <= irqs[k] :: grants[k] && irqs[k] !in h && irqs[k] !in irqs[..k]
  {
    forall k | 0 <= k < |irqs| && 0 <= irqs[k]
      ensures irqs[k] !in h && irqs[k] !in irqs[..k] ==> irqs[k] !in Requested(h, irqs, k)
      ensures Granted(h, irqs, grants, |irqs|) ==> irqs[k] !in h && irqs[k] !in irqs[..k]
    {
      if irqs[k] !in irqs[..k] {
        assert forall j | 0 <= j < k :: irqs[j] in irqs[..k];
        RequestedElsewhere(h, irqs, k, irqs[k]);
      }
      if Granted(h, irqs, grants, |irqs|) {
        RequestedKeeps(h, irqs, k, irqs[k]);
        if irqs[k] in irqs[..k] {
          var j :| 0 <= j < k && irqs[j] == irqs[k];
          RequestedOwner(h, irqs, grants, k, j);
        }
      }
    }
  }

  // After a successful open every entry owns its line, and the lines held before are as they were.
  lemma RequestedExactly(h: Handlers, irqs: seq<int>, grants: seq<bool>)
    requires |irqs| == |grants| && Granted(h, irqs, grants, |irqs|)
    ensures var g := Requested(h, irqs, |irqs|);
            && (forall q :: q in g <==> q in h || (0 <= q && q in irqs))
            && (forall q | q in h :: g[q] == h[q])
            && (forall k | 0 <= k < |irqs| && 0 <= irqs[k] :: irqs[k] in g && g[irqs[k]] == k)
  {
    var g := Requested(h, irqs, |irqs|);
    forall k | 0 <= k < |irqs| && 0 <= irqs[k]
      ensures irqs[k] in g && g[irqs[k]] == k && irqs[k] !in h
    {
      RequestedOwner(h, irqs, grants, |irqs|, k);
    }
    forall q | !(0 <= q && q in irqs)
      ensures q in g <==> q in h
      ensures q in h ==> g[q] == h[q]
    {
      RequestedElsewhere(h, irqs, |irqs|, q);
    }
  }

  // For any table and any grants: a successful open followed by a close restores the handlers.
  lemma OpenThenClose(h: Handlers, irqs: seq<int>, grants: seq<bool>)
    requires |irqs| == |grants| && Granted(h, irqs, grants, |irqs|)
    ensures Freed(Requested(h, irqs, |irqs|), irqs, |irqs|) == h
  {
    var n := |irqs|;
    var g := Requested(h, irqs, n);
    forall j | 0 <= j < n && 0 <= irqs[j]
      ensures irqs[j] in g && g[irqs[j]] == j && irqs[j] !in h
    {
      RequestedOwner(h, irqs, grants, n, j);
    }
    forall q
      ensures q in Freed(g, irqs, n) <==> q in h
      ensures q in h ==> Freed(g, irqs, n)[q] == h[q]
    {
      FreedExactly(g, irqs, n, q);
      if !(0 <= q && q in irqs) {
        RequestedElsewhere(h, irqs, n, q);
      }
    }
  }
}
