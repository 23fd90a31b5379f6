/** What scull3 promises as a sparse byte file, call by call, over chunked transfers and over runs. */
module ScullLaws {
  import opened Kernel
  import opened ScullFile

  // ---------- one call ----------

  // The bytes of a write that reached the quantum.
  ghost function Moved(f: File, pos: nat, buf: seq<byte>, env: WriteEnv): seq<byte>
    requires Shaped(f)
  {
    Landing(buf, Clip(f.quantum, pos, |buf|), env.copy)
  }

  ghost predicate CanStore(f: File, pos: nat, env: WriteEnv) {
    env.lock && HasSlots(f, pos, env) && HasBlock(f, pos, env)
  }

  // Which calls succeed, what they report, and that a failed write moves neither size nor position.
  lemma WriteStatus(f: File, pos: nat, buf: seq<byte>, env: WriteEnv)
    requires WellFormed(f) && (env.lock ==> Shaped(f))
    ensures var w := Write(f, pos, buf, env);
            && w.file.quantum == f.quantum && w.file.qset == f.qset
            && w.file.chain == f.chain && w.file.counting == f.counting
            && (w.ret.Ok? <==> CanStore(f, pos, env) && env.copy.Whole?)
            && (w.ret == Err(EFAULT) <==> CanStore(f, pos, env) && env.copy.Fault?)
            && (w.ret == Err(ERESTARTSYS) <==> !env.lock)
            && (w.ret == Err(EINVAL) <==> env.lock && !CanStore(f, pos, env))
            && (w.ret.Ok? ==>
                  && w.ret.n == Clip(f.quantum, pos, |buf|) && w.pos == pos + w.ret.n
                  && w.file.size == Max(f.size, w.pos))
            && (w.ret.Err? ==> w.file.size == f.size && w.pos == pos)
  {
  }

  // A write can store exactly with the semaphore, below the capacity, and where the node's pointer
  // array and the quantum are there or can be had.
  lemma CanStoreIff(f: File, pos: nat, env: WriteEnv)
    requires Shaped(f)
    ensures CanStore(f, pos, env) <==>
              && env.lock && pos < Capacity(f)
              && (pos / f.quantum / f.qset in f.arrays || env.arrayMem)
              && (pos / f.quantum in f.cells || env.quantumMem.Some?)
  {
    ReachIsCapacity(f, pos);
    DivMod(pos, f.quantum);
    DivMod(Quot(pos, f.quantum), f.qset);
  }

  // The node keeps the pointer array it has, or gets one if there is memory for it, even if the write
  // fails for want of a quantum; no other node gets one.
  lemma WriteArrays(f: File, pos: nat, buf: seq<byte>, env: WriteEnv)
    requires WellFormed(f) && Shaped(f)
    ensures Write(f, pos, buf, env).file.arrays ==
              if env.lock && env.arrayMem && pos < Capacity(f) then f.arrays + {pos / f.quantum / f.qset} else f.arrays
  {
    ReachIsCapacity(f, pos);
    DivMod(pos, f.quantum);
    DivMod(Quot(pos, f.quantum), f.qset);
  }

  // A write changes at most one quantum, the one it starts in.
  lemma WriteCells(f: File, pos: nat, buf: seq<byte>, env: WriteEnv)
    requires WellFormed(f) && Shaped(f)
    ensures var g, k := Write(f, pos, buf, env).file, Quot(pos, f.quantum);
            && (CanStore(f, pos, env) ==>
                  && g.arrays == f.arrays + {Quot(k, f.qset)}
                  && var cell := Block(f, k, env.quantumMem);
                     g.cells == f.cells[k := Overlay(cell, Rem(pos, f.quantum), Moved(f, pos, buf, env))])
            && (!CanStore(f, pos, env) ==>
                  && (g.arrays == f.arrays || (InReach(f, pos) && g.arrays == f.arrays + {Quot(k, f.qset)}))
                  && g.cells == f.cells)
  {
  }

  lemma WriteKeeps(f: File, pos: nat, buf: seq<byte>, env: WriteEnv)
    requires WellFormed(f) && (env.lock ==> Shaped(f))
    ensures var g := Write(f, pos, buf, env).file;
            WellFormed(g) && Shaped(g) == Shaped(f) && forall p: nat :: InReach(g, p) == InReach(f, p)
  {
    if env.lock {
      LockedWriteKeeps(f, pos, buf, env);
    }
  }

  lemma LockedWriteKeeps(f: File, pos: nat, buf: seq<byte>, env: WriteEnv)
    requires WellFormed(f) && Shaped(f)
    ensures var g := Write(f, pos, buf, env).file;
            WellFormed(g) && Shaped(g) && forall p: nat :: InReach(g, p) == InReach(f, p)
  {
    hide Write;
    WriteStatus(f, pos, buf, env);
    WriteCells(f, pos, buf, env);
    var w := Write(f, pos, buf, env);
    if w.ret.Ok? {
      if 0 < w.ret.n {
        SameQuotient(pos, f.quantum, w.ret.n - 1);
      } else if 0 < pos {
        InReachBelow(f, pos - 1, pos);
      }
    }
  }

  lemma InReachBelow(f: File, a: nat, b: nat)
    requires a <= b && InReach(f, b)
    ensures InReach(f, a)
  {
    QuotMonotone(a, b, f.quantum);
    QuotMonotone(Quot(a, f.quantum), Quot(b, f.quantum), f.qset);
  }

  // The byte at p after a write: the caller's byte inside the transfer; elsewhere the old byte;
  // and where a hole became a block, whatever the allocator left there.
  lemma WriteByte(f: File, pos: nat, buf: seq<byte>, env: WriteEnv, p: nat)
    requires WellFormed(f) && (env.lock ==> Shaped(f))
    ensures var w, stores := Write(f, pos, buf, env), CanStore(f, pos, env);
            ByteAt(w.file, p) ==
            if stores && pos <= p < pos + |Moved(f, pos, buf, env)| then Some(Moved(f, pos, buf, env)[p - pos])
            else if stores && Quot(p, f.quantum) == Quot(pos, f.quantum) && ByteAt(f, p).None?
            then Some(env.quantumMem.value(Rem(p, f.quantum)))
            else ByteAt(f, p)
  {
    hide Write, CanStore, InReach, WellFormed, Block, Quot, Rem, ByteAt;
    WriteStatus(f, pos, buf, env);
    if CanStore(f, pos, env) {
      CanStoreBlock(f, pos, env);
      WriteCells(f, pos, buf, env);
      var g, k, bytes := Write(f, pos, buf, env).file, Quot(pos, f.quantum), Moved(f, pos, buf, env);
      OverlaidByte(f, g, pos, bytes, Block(f, k, env.quantumMem), p);
      if Quot(p, f.quantum) == k {
        BlockByte(f, k, env.quantumMem, p);
      } else if pos <= p < pos + |bytes| {
        SameQuotient(pos, f.quantum, p - pos);
      }
    } else {
      CellsStay(f, pos, buf, env);
      SameByte(f, Write(f, pos, buf, env).file, p);
    }
  }

  lemma CellsStay(f: File, pos: nat, buf: seq<byte>, env: WriteEnv)
    requires WellFormed(f) && (env.lock ==> Shaped(f)) && !CanStore(f, pos, env)
    ensures Write(f, pos, buf, env).file.cells == f.cells
  {
  }

  lemma CanStoreBlock(f: File, pos: nat, env: WriteEnv)
    requires CanStore(f, pos, env)
    ensures env.lock && Shaped(f) && (Quot(pos, f.quantum) in f.cells || env.quantumMem.Some?)
  {
  }

  lemma SameByte(f: File, g: File, p: nat)
    requires g.quantum == f.quantum && g.qset == f.qset && g.cells == f.cells
    ensures ByteAt(g, p) == ByteAt(f, p)
  {
  }

  lemma BlockByte(f: File, k: nat, mem: Option<nat -> byte>, p: nat)
    requires WellFormed(f) && Shaped(f) && (k in f.cells || mem.Some?) && Quot(p, f.quantum) == k
    ensures ByteAt(f, p).None? ==> mem.Some?
    ensures var stored, off := ByteAt(f, p), Rem(p, f.quantum);
            Block(f, k, mem)[off] == if stored.Some? then stored.value else mem.value(off)
  {
    hide Quot, Rem;
  }

  // The byte at p when one cell is replaced by an overlay of its former contents.
  lemma OverlaidByte(f: File, g: File, pos: nat, bytes: seq<byte>, cell: seq<byte>, p: nat)
    requires Shaped(f) && |cell| == f.quantum && Rem(pos, f.quantum) + |bytes| <= f.quantum
    requires g.quantum == f.quantum && g.qset == f.qset
    requires g.cells == f.cells[Quot(pos, f.quantum) := Overlay(cell, Rem(pos, f.quantum), bytes)]
    ensures ByteAt(g, p) ==
            if pos <= p < pos + |bytes| then Some(bytes[p - pos])
            else if Quot(p, f.quantum) == Quot(pos, f.quantum) then Some(cell[Rem(p, f.quantum)])
            else ByteAt(f, p)
  {
    hide Quot, Rem;
    if Quot(p, f.quantum) == Quot(pos, f.quantum) {
      EqualQuotients(p, pos, f.quantum);
    } else if pos <= p < pos + |bytes| {
      SameQuotient(pos, f.quantum, p - pos);
    }
  }

  // Does a read find nothing here?
  ghost predicate AtEnd(f: File, pos: nat) {
    pos >= f.size || ByteAt(f, pos).None?
  }

  // Which reads succeed, what they report, and that a failed read does not move the position: only
  // one that finds a byte can fault, and it has delivered what was moved before.
  lemma ReadStatus(f: File, pos: nat, count: nat, env: ReadEnv)
    requires WellFormed(f)
    ensures var r := Read(f, pos, count, env);
            && (r.ret == Err(ERESTARTSYS) <==> !env.lock)
            && (r.ret == Err(EFAULT) <==> env.lock && !AtEnd(f, pos) && env.fault.Some?)
            && (r.ret.Ok? <==> env.lock && (AtEnd(f, pos) || env.fault.None?))
            && (r.ret.Ok? ==> r.ret.n == |r.out| && r.pos == pos + |r.out|)
            && (r.ret.Err? ==> r.pos == pos)
            && |r.out| == if !env.lock || AtEnd(f, pos) then 0 else
                 var n := Clip(f.quantum, pos, Min(count, f.size - pos));
                 if env.fault.Some? then Min(env.fault.value, n) else n
  {
  }

  // A read hands out the flat contents, clipped to the size and to the quantum, and nothing at a hole.
  lemma ReadBytes(f: File, pos: nat, count: nat, env: ReadEnv)
    requires WellFormed(f)
    ensures var r := Read(f, pos, count, env);
            && (forall i | 0 <= i < |r.out| :: ByteAt(f, pos + i) == Some(r.out[i]))
            && (r.ret.Err? ==> r.pos == pos)
            && (r.ret.Ok? ==>
                  && r.pos == pos + r.ret.n && |r.out| == r.ret.n
                  && r.ret.n == if pos >= f.size || ByteAt(f, pos).None? then 0
                                else Clip(f.quantum, pos, Min(count, f.size - pos)))
  {
    var r := Read(f, pos, count, env);
    forall i | 0 <= i < |r.out|
      ensures ByteAt(f, pos + i) == Some(r.out[i])
    {
      SameQuotient(pos, f.quantum, i);
    }
  }

  // ---------- whole transfers in chunks ----------

  // The environment of one call of WriteAll.
  function Fine(f: File, pos: nat, junk: nat -> (nat -> byte)): WriteEnv
    requires Shaped(f)
  {
    WriteEnv(true, true, Some(junk(Quot(pos, f.quantum))), Whole)
  }

  // A caller that writes the unwritten tail again and again, with memory and user pages at hand;
  // `junk` gives the initial contents of each new quantum.
  datatype WriteRun = WriteRun(file: File, left: seq<byte>, calls: nat)

  ghost function WriteAll(f: File, pos: nat, bytes: seq<byte>, junk: nat -> (nat -> byte)): (r: WriteRun)
    requires WellFormed(f) && Shaped(f)
    decreases |bytes|
  {
    if bytes == [] then
      WriteRun(f, [], 0)
    else
      var w := Write(f, pos, bytes, Fine(f, pos, junk));
      if w.ret.Err? then
        WriteRun(w.file, bytes, 1)
      else
        WriteStatus(f, pos, bytes, Fine(f, pos, junk));
        WriteKeeps(f, pos, bytes, Fine(f, pos, junk));
        var r := WriteAll(w.file, w.pos, bytes[w.ret.n..], junk);
        r.(calls := r.calls + 1)
  }

  datatype ReadRun = ReadRun(bytes: seq<byte>, calls: nat)

  ghost function ReadAll(f: File, pos: nat, count: nat): (r: ReadRun)
    requires WellFormed(f)
    decreases count
  {
    if count == 0 then
      ReadRun([], 0)
    else
      var d := Read(f, pos, count, ReadEnv(true, None));
      ReadBytes(f, pos, count, ReadEnv(true, None));
      if d.ret == Ok(0) then
        ReadRun([], 1)
      else
        var r := ReadAll(f, d.pos, count - d.ret.n);
        ReadRun(d.out + r.bytes, r.calls + 1)
  }

  // How many quanta the positions pos .. pos+len touch.
  function Spanned(quantum: nat, pos: nat, len: nat): nat
    requires 0 < quantum
  {
    if len == 0 then 0 else
      QuotMonotone(pos, pos + len - 1, quantum);
      Quot(pos + len - 1, quantum) - Quot(pos, quantum) + 1
  }

  // After a full quantum the rest spans one quantum less.
  lemma SpannedStep(quantum: nat, pos: nat, len: nat)
    requires 0 < quantum && 0 < len
    ensures var n := Clip(quantum, pos, len);
            Spanned(quantum, pos, len) == 1 + Spanned(quantum, pos + n, len - n)
  {
    var n := Clip(quantum, pos, len);
    if n == len {
      SameQuotient(pos, quantum, len - 1);
    } else {
      NextQuotient(pos, quantum, n);
    }
  }

  // One call of a chunked write, in terms of what remains.
  lemma WriteAllStep(f: File, pos: nat, bytes: seq<byte>, junk: nat -> (nat -> byte))
    requires WellFormed(f) && Shaped(f) && bytes != []
    ensures var w, n := Write(f, pos, bytes, Fine(f, pos, junk)), Clip(f.quantum, pos, |bytes|);
            && WellFormed(w.file) && Shaped(w.file) && w.file.quantum == f.quantum
            && (forall p: nat :: InReach(w.file, p) == InReach(f, p))
            && (InReach(f, pos) ==>
                  && w.ret == Ok(n) && w.pos == pos + n && InReach(f, pos + n - 1)
                  && w.file.size == Max(f.size, pos + n))
            && (!InReach(f, pos) ==> w.ret.Err? && !InReach(f, pos + |bytes| - 1))
  {
    hide Write, WellFormed;
    var w, n := Write(f, pos, bytes, Fine(f, pos, junk)), Clip(f.quantum, pos, |bytes|);
    WriteStatus(f, pos, bytes, Fine(f, pos, junk));
    WriteKeeps(f, pos, bytes, Fine(f, pos, junk));
    SameQuotient(pos, f.quantum, n - 1);
    if InReach(f, pos + |bytes| - 1) {
      InReachBelow(f, pos, pos + |bytes| - 1);
    }
  }

  // The whole string lands exactly when its last byte is within reach.
  lemma {:induction false} WriteAllFits(f: File, pos: nat, bytes: seq<byte>, junk: nat -> (nat -> byte))
    requires WellFormed(f) && Shaped(f)
    ensures var r := WriteAll(f, pos, bytes, junk);
            && WellFormed(r.file) && Shaped(r.file)
            && r.file.quantum == f.quantum
            && (r.left == [] <==> bytes == [] || InReach(f, pos + |bytes| - 1))
            && (r.left == [] ==> r.file.size == (if bytes == [] then f.size else Max(f.size, pos + |bytes|)))
    decreases |bytes|
  {
    hide Write, InReach, WellFormed, Reach;
    if bytes != [] {
      var w := Write(f, pos, bytes, Fine(f, pos, junk));
      WriteAllStep(f, pos, bytes, junk);
      if InReach(f, pos) {
        WriteAllFits(w.file, w.pos, bytes[w.ret.n..], junk);
      }
    }
  }

  // It takes one call for every quantum that the string touches.
  lemma {:induction false} WriteAllCalls(f: File, pos: nat, bytes: seq<byte>, junk: nat -> (nat -> byte))
    requires WellFormed(f) && Shaped(f)
    requires WriteAll(f, pos, bytes, junk).left == []
    ensures WriteAll(f, pos, bytes, junk).calls == Spanned(f.quantum, pos, |bytes|)
    decreases |bytes|
  {
    hide Write, InReach, WellFormed, Reach;
    if bytes != [] {
      var w := Write(f, pos, bytes, Fine(f, pos, junk));
      WriteAllStep(f, pos, bytes, junk);
      WriteAllCalls(w.file, w.pos, bytes[w.ret.n..], junk);
      SpannedStep(f.quantum, pos, |bytes|);
    }
  }

  // Byte by byte: a string that fits is all there afterwards, and no other stored byte is lost.
  lemma {:induction false} WriteAllByte(f: File, pos: nat, bytes: seq<byte>, junk: nat -> (nat -> byte), p: nat)
    requires WellFormed(f) && Shaped(f)
    ensures var r := WriteAll(f, pos, bytes, junk);
            && (pos <= p < pos + |bytes| && r.left == [] ==> ByteAt(r.file, p) == Some(bytes[p - pos]))
            && (!(pos <= p < pos + |bytes|) && ByteAt(f, p).Some? ==> ByteAt(r.file, p) == ByteAt(f, p))
    decreases |bytes|
  {
    hide Write, InReach, WellFormed, Reach, CanStore, ByteAt;
    if bytes != [] {
      var w := Write(f, pos, bytes, Fine(f, pos, junk));
      WriteAllStep(f, pos, bytes, junk);
      WriteStatus(f, pos, bytes, Fine(f, pos, junk));
      WriteByte(f, pos, bytes, Fine(f, pos, junk), p);
      if w.ret.Ok? {
        WriteAllByte(w.file, w.pos, bytes[w.ret.n..], junk, p);
      }
    }
  }

  // The positions from pos on hold this string.
  ghost predicate Holds(f: File, pos: nat, bytes: seq<byte>) {
    forall i | 0 <= i < |bytes| :: ByteAt(f, pos + i) == Some(bytes[i])
  }

  lemma HoldsAppend(f: File, pos: nat, front: seq<byte>, back: seq<byte>)
    requires Holds(f, pos, front) && Holds(f, pos + |front|, back)
    ensures Holds(f, pos, front + back)
  {
    hide ByteAt;
    forall i | 0 <= i < |front + back|
      ensures ByteAt(f, pos + i) == Some((front + back)[i])
    {
      if |front| <= i {
        assert ByteAt(f, pos + |front| + (i - |front|)) == Some(back[i - |front|]);
      }
    }
  }

  // The string is there, below the size.
  ghost predicate Stored(f: File, pos: nat, bytes: seq<byte>) {
    Holds(f, pos, bytes) && (bytes == [] || pos + |bytes| <= f.size)
  }

  // One read, on its way through a longer request.
  lemma ReadStep(f: File, pos: nat, count: nat)
    requires WellFormed(f) && 0 < count
    ensures var d := Read(f, pos, count, ReadEnv(true, None));
            && d.ret.Ok? && d.ret.n == |d.out| <= count && d.pos == pos + |d.out|
            && Stored(f, pos, d.out)
            && (d.out == [] <==> AtEnd(f, pos))
  {
    hide WellFormed, ByteAt;
    ReadBytes(f, pos, count, ReadEnv(true, None));
  }

  // Reading on until done delivers the flat contents up to the count, the size or the first hole,
  // whichever comes first: to a sequential reader a hole below the size looks like the end.
  lemma {:induction false} ReadAllExact(f: File, pos: nat, count: nat)
    requires WellFormed(f)
    ensures var r := ReadAll(f, pos, count).bytes;
            |r| <= count && Stored(f, pos, r) && (|r| < count ==> AtEnd(f, pos + |r|))
    decreases count
  {
    hide Read, WellFormed, ByteAt, AtEnd;
    if 0 < count {
      var d := Read(f, pos, count, ReadEnv(true, None));
      ReadStep(f, pos, count);
      if d.out != [] {
        ReadAllExact(f, d.pos, count - |d.out|);
        HoldsAppend(f, pos, d.out, ReadAll(f, d.pos, count - |d.out|).bytes);
      }
    }
  }

  // A read that is followed by another one ended with its quantum.
  lemma ReadChunk(f: File, pos: nat, count: nat, more: nat)
    requires WellFormed(f) && Shaped(f) && 0 < count && !AtEnd(f, pos)
    ensures var n := |Read(f, pos, count, ReadEnv(true, None)).out|;
            more == 0 || (more <= count - n && pos + n < f.size) ==> n == Clip(f.quantum, pos, n + more)
  {
    hide WellFormed, ByteAt;
    ReadBytes(f, pos, count, ReadEnv(true, None));
  }

  // It takes one call for every quantum touched, and one more to learn that it has come to an end.
  lemma {:induction false} ReadAllCalls(f: File, pos: nat, count: nat)
    requires WellFormed(f) && Shaped(f)
    ensures var r := ReadAll(f, pos, count);
            r.calls == Spanned(f.quantum, pos, |r.bytes|) + if |r.bytes| < count then 1 else 0
    decreases count
  {
    hide Read, WellFormed, Holds, AtEnd, Clip, Spanned;
    assert Spanned(f.quantum, pos, 0) == 0 by { ZeroSpan(f.quantum, pos); }
    if 0 < count {
      var d := Read(f, pos, count, ReadEnv(true, None));
      ReadStep(f, pos, count);
      if d.out != [] {
        var n, more := |d.out|, |ReadAll(f, d.pos, count - |d.out|).bytes|;
        ReadAllCalls(f, d.pos, count - n);
        ReadAllExact(f, d.pos, count - n);
        ReadChunk(f, pos, count, more);
        SpannedStep(f.quantum, pos, n + more);
      }
    }
  }

  lemma ZeroSpan(quantum: nat, pos: nat)
    requires 0 < quantum
    ensures Spanned(quantum, pos, 0) == 0
  {
  }

  lemma StoredNotEnd(f: File, pos: nat, bytes: seq<byte>, i: nat)
    requires Stored(f, pos, bytes) && i < |bytes|
    ensures !AtEnd(f, pos + i)
  {
    assert ByteAt(f, pos + i) == Some(bytes[i]);
  }

  lemma NothingAtEnd(f: File, pos: nat, count: nat)
    requires WellFormed(f) && AtEnd(f, pos)
    ensures ReadAll(f, pos, count).bytes == []
  {
    hide Read, WellFormed, AtEnd;
    if 0 < count {
      ReadStep(f, pos, count);
    }
  }

  // So reading a stretch of stored bytes below the size returns it.
  lemma ReadAllReturns(f: File, pos: nat, bytes: seq<byte>)
    requires WellFormed(f) && Stored(f, pos, bytes)
    ensures ReadAll(f, pos, |bytes|).bytes == bytes
  {
    hide WellFormed, ByteAt, ReadAll, AtEnd;
    var r := ReadAll(f, pos, |bytes|).bytes;
    if |r| < |bytes| {
      StoredNotEnd(f, pos, bytes, |r|);
    }
    ReadAllExact(f, pos, |bytes|);
    forall i | 0 <= i < |r|
      ensures r[i] == bytes[i]
    {
      assert ByteAt(f, pos + i) == Some(r[i]);
    }
  }

  // A hole in front of stored bytes: a byte written to the second quantum of an empty device is
  // out of sight for a reader that starts at 0, although it lies below the size.
  lemma HoleHidesTail(quantum: nat, qset: nat, counting: bool, value: byte, junk: nat -> (nat -> byte))
    requires 0 < quantum && 1 < qset
    ensures var empty := File(quantum, qset, 1, counting, 0, {}, map[]);
            && WellFormed(empty)
            && var f := Write(empty, quantum, [value], Fine(empty, quantum, junk)).file;
               && WellFormed(f) && f.size == quantum + 1
               && ReadAll(f, quantum, 1).bytes == [value]
               && forall count: nat :: ReadAll(f, 0, count).bytes == []
  {
    hide Write, ReadAll, ByteAt, CanStore, InReach, Clip, Quot, Rem;
    var empty := File(quantum, qset, 1, counting, 0, {}, map[]);
    var env := Fine(empty, quantum, junk);
    SecondQuantum(empty, env);
    WriteStatus(empty, quantum, [value], env);
    WriteKeeps(empty, quantum, [value], env);
    WriteByte(empty, quantum, [value], env, 0);
    WriteByte(empty, quantum, [value], env, quantum);
    var f := Write(empty, quantum, [value], env).file;
    ReadAllReturns(f, quantum, [value]);
    forall count: nat
      ensures ReadAll(f, 0, count).bytes == []
    {
      NothingAtEnd(f, 0, count);
    }
  }

  lemma SecondQuantum(empty: File, env: WriteEnv)
    requires 0 < empty.quantum && 1 < empty.qset && empty.chain == 1 && empty.cells == map[]
    requires env.lock && env.arrayMem && env.quantumMem.Some?
    ensures CanStore(empty, empty.quantum, env) && Clip(empty.quantum, empty.quantum, 1) == 1
    ensures ByteAt(empty, 0) == None && Quot(0, empty.quantum) != Quot(empty.quantum, empty.quantum)
  {
    hide Rem;
    assert Quot(0, empty.quantum) == 0;
    assert Quot(empty.quantum, empty.quantum) == 1;
    assert Quot(1, empty.qset) == 0;
  }

  // The round trip: a string that ends below the capacity comes back whole, each way in one
  // call per quantum, and the write disturbs no byte stored elsewhere.  A string that does not
  // end below the capacity is not stored whole.
  lemma RoundTrip(f: File, pos: nat, bytes: seq<byte>, junk: nat -> (nat -> byte))
    requires WellFormed(f) && Shaped(f)
    ensures var w := WriteAll(f, pos, bytes, junk);
            && WellFormed(w.file)
            && (w.left == [] <==> bytes == [] || pos + |bytes| <= Capacity(f))
            && (w.left == [] ==>
                  && w.calls == Spanned(f.quantum, pos, |bytes|)
                  && ReadAll(w.file, pos, |bytes|) == ReadRun(bytes, Spanned(f.quantum, pos, |bytes|)))
            && (forall p: nat | !(pos <= p < pos + |bytes|) && ByteAt(f, p).Some? :: ByteAt(w.file, p) == ByteAt(f, p))
  {
    hide WellFormed, ByteAt, WriteAll, ReadAll, Spanned, InReach, Capacity;
    var w := WriteAll(f, pos, bytes, junk);
    WriteAllFits(f, pos, bytes, junk);
    if bytes != [] {
      ReachIsCapacity(f, pos + |bytes| - 1);
    }
    if w.left == [] {
      WriteAllCalls(f, pos, bytes, junk);
      forall i | 0 <= i < |bytes|
        ensures ByteAt(w.file, pos + i) == Some(bytes[i])
      {
        WriteAllByte(f, pos, bytes, junk, pos + i);
      }
      ReadAllReturns(w.file, pos, bytes);
      ReadAllCalls(w.file, pos, |bytes|);
    }
    forall p: nat | !(pos <= p < pos + |bytes|) && ByteAt(f, p).Some?
      ensures ByteAt(w.file, p) == ByteAt(f, p)
    {
      WriteAllByte(f, pos, bytes, junk, p);
    }
  }

  // With the loop of scull_follow as written only the first node can be reached, so on a chain
  // of at least one node a string is stored exactly when it fits into that node.
  lemma AsWrittenStoresOneNode(f: File, pos: nat, bytes: seq<byte>, junk: nat -> (nat -> byte))
    requires WellFormed(f) && Shaped(f)
    requires !f.counting && 0 < f.chain
    ensures WriteAll(f, pos, bytes, junk).left == [] <==> bytes == [] || pos + |bytes| <= f.quantum * f.qset
  {
    hide WriteAll, WellFormed;
    RoundTrip(f, pos, bytes, junk);
  }

  // With the walk that its callers expect, exactly when it fits into the whole chain.
  lemma AsPromisedStoresChain(f: File, pos: nat, bytes: seq<byte>, junk: nat -> (nat -> byte))
    requires WellFormed(f) && Shaped(f) && f.counting
    ensures WriteAll(f, pos, bytes, junk).left == []
            <==> bytes == [] || pos + |bytes| <= f.chain * (f.quantum * f.qset)
  {
    hide WriteAll, WellFormed;
    RoundTrip(f, pos, bytes, junk);
  }

  // A position inside a chain of two nodes that the loop as written cannot reach.
  lemma AsWrittenRefusesSecondNode(junk: nat -> (nat -> byte))
    ensures var f := File(1, 1, 2, false, 0, {}, map[]);
            && WellFormed(f) && Shaped(f)
            && WriteAll(f, 1, [7], junk).left == [7]
            && WriteAll(f.(counting := true), 1, [7], junk).left == []
  {
    var f := File(1, 1, 2, false, 0, {}, map[]);
    assert Write(f, 1, [7], Fine(f, 1, junk)).ret == Err(EINVAL);
    RoundTrip(f.(counting := true), 1, [7], junk);
  }
}
