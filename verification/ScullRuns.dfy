/** Whole runs of open, read and write calls on a scull3 device, whatever memory, semaphore and user pages do. */
module ScullRuns {
  import opened Kernel
  import opened ScullFile
  import opened ScullLaws

  datatype Call =
    | Open(writeOnly: bool)
    | ReadAt(pos: nat, count: nat, renv: ReadEnv)
    | WriteAt(pos: nat, buf: seq<byte>, env: WriteEnv)

  // The module parameters scull_quantum and scull_qset, which every trim installs.
  datatype Params = Params(quantum: nat, qset: nat)

  predicate Usable(params: Params) {
    0 < params.quantum && 0 < params.qset
  }

  // The driver's own device, which is static: no geometry and no node.
  function Static(counting: bool): File {
    File(0, 0, 0, counting, 0, {}, map[])
  }

  // ---------- runs and divisions by zero ----------

  // Does the call divide by a geometry that is not there?  A write divides once it has the
  // semaphore; a read only below the size.
  predicate DividesByZero(f: File, call: Call) {
    !Shaped(f) &&
    match call
    case Open(_) => false
    case ReadAt(pos, _, renv) => renv.lock && pos < f.size
    case WriteAt(_, _, env) => env.lock
  }

  ghost function After(f: File, params: Params, call: Call): (f': File)
    requires WellFormed(f) && !DividesByZero(f, call)
    ensures WellFormed(f') && f'.counting == f.counting
    ensures Shaped(f') <==> if Trims(call) then Usable(params) else Shaped(f)
  {
    match call
    case Open(writeOnly) => if writeOnly then Trim(f, params.quantum, params.qset) else f
    case ReadAt(_, _, _) => f
    case WriteAt(pos, buf, env) =>
      WriteStatus(f, pos, buf, env);
      WriteKeeps(f, pos, buf, env);
      Write(f, pos, buf, env).file
  }

  // The file after a run, or None if a call of the run divided by zero.
  ghost function Run(f: File, params: Params, calls: seq<Call>): (r: Option<File>)
    requires WellFormed(f)
    ensures r.Some? ==> WellFormed(r.value)
    decreases |calls|
  {
    if calls == [] then Some(f)
    else if DividesByZero(f, calls[0]) then None
    else Run(After(f, params, calls[0]), params, calls[1..])
  }

  predicate Trims(call: Call) {
    call.Open? && call.writeOnly
  }

  // A write that gets the semaphore.
  predicate Locked(call: Call) {
    call.WriteAt? && call.env.lock
  }

  predicate TrimmedBefore(calls: seq<Call>, n: nat)
    requires n <= |calls|
  {
    exists m | 0 <= m < n :: Trims(calls[m])
  }

  // Has the device a geometry when call n comes, judging by the calls alone?
  predicate GeometryAt(f: File, params: Params, calls: seq<Call>, n: nat)
    requires n <= |calls|
  {
    if TrimmedBefore(calls, n) then Usable(params) else Shaped(f)
  }

  lemma GeometryShift(f: File, params: Params, calls: seq<Call>, n: nat)
    requires 0 < n <= |calls| && WellFormed(f) && !DividesByZero(f, calls[0])
    ensures GeometryAt(f, params, calls, n) == GeometryAt(After(f, params, calls[0]), params, calls[1..], n - 1)
  {
    var rest := calls[1..];
    assert forall m | 0 <= m < n - 1 :: rest[m] == calls[m + 1];
    if TrimmedBefore(calls, n) && !Trims(calls[0]) {
      var m :| 0 <= m < n && Trims(calls[m]);
      assert Trims(rest[m - 1]);
    }
  }

  // No call of a run divides by zero exactly if every write that gets the semaphore finds a
  // geometry: one that the device came with, or usable parameters and a write-only open before.
  lemma {:induction false} DividesIff(f: File, params: Params, calls: seq<Call>)
    requires WellFormed(f)
    ensures Run(f, params, calls).Some?
            <==> forall n | 0 <= n < |calls| && Locked(calls[n]) :: GeometryAt(f, params, calls, n)
    decreases |calls|
  {
    hide WellFormed, After, GeometryAt;
    if calls != [] {
      assert !DividesByZero(f, calls[0]) <==> (Locked(calls[0]) ==> GeometryAt(f, params, calls, 0)) by {
        FirstCall(f, params, calls);
      }
      if !DividesByZero(f, calls[0]) {
        var f', rest := After(f, params, calls[0]), calls[1..];
        DividesIff(f', params, rest);
        forall n | 0 < n < |calls|
          ensures calls[n] == rest[n - 1] && GeometryAt(f, params, calls, n) == GeometryAt(f', params, rest, n - 1)
        {
          GeometryShift(f, params, calls, n);
        }
        assert forall n | 0 <= n < |rest| :: rest[n] == calls[n + 1];
      }
    }
  }

  lemma FirstCall(f: File, params: Params, calls: seq<Call>)
    requires WellFormed(f) && calls != []
    ensures !DividesByZero(f, calls[0]) <==> (Locked(calls[0]) ==> GeometryAt(f, params, calls, 0))
  {
  }

  // So on the driver's own device, whose parameters are usable by default, exactly the writes that
  // come before any write-only open divide by zero.
  lemma StaticDividesIff(counting: bool, params: Params, calls: seq<Call>)
    requires Usable(params)
    ensures Run(Static(counting), params, calls).Some?
            <==> forall n | 0 <= n < |calls| && Locked(calls[n]) :: TrimmedBefore(calls, n)
  {
    DividesIff(Static(counting), params, calls);
    assert forall n | 0 <= n < |calls| :: GeometryAt(Static(counting), params, calls, n) == TrimmedBefore(calls, n);
  }

  // The shortest such run: one write.
  lemma FirstWriteDivides(counting: bool, params: Params, pos: nat, buf: seq<byte>, env: WriteEnv)
    ensures Run(Static(counting), params, [WriteAt(pos, buf, env)]).None? <==> env.lock
  {
    var calls := [WriteAt(pos, buf, env)];
    assert calls[1..] == [];
  }

  // ---------- geometry ----------

  // One call keeps the geometry, the chain and everything that is stored, or trims it all away.
  lemma GeometryStep(f: File, params: Params, call: Call)
    requires WellFormed(f) && !DividesByZero(f, call)
    ensures var g := After(f, params, call);
            if Trims(call) then
              g == File(params.quantum, params.qset, 0, f.counting, 0, {}, map[])
            else
              && g.quantum == f.quantum && g.qset == f.qset && g.chain == f.chain && g.counting == f.counting
              && f.size <= g.size && f.arrays <= g.arrays && f.cells.Keys <= g.cells.Keys
  {
    hide WellFormed, Quot, Rem;
    if call.WriteAt? {
      WriteStatus(f, call.pos, call.buf, call.env);
      if call.env.lock {
        WriteCells(f, call.pos, call.buf, call.env);
      }
    }
  }

  // At the end of every run the device has the geometry of the module's parameters, each number in
  // its place, and nothing else, if some call trimmed it; otherwise the geometry it started with,
  // its whole chain, and everything that was allocated before.
  lemma {:induction false} GeometryAlways(f: File, params: Params, calls: seq<Call>)
    requires WellFormed(f) && Run(f, params, calls).Some?
    ensures var g := Run(f, params, calls).value;
            && g.counting == f.counting
            && if exists n | 0 <= n < |calls| :: Trims(calls[n]) then
                 && g.quantum == params.quantum && g.qset == params.qset
                 && g.chain == 0 && g.size == 0 && g.arrays == {} && g.cells == map[]
               else
                 && g.quantum == f.quantum && g.qset == f.qset && g.chain == f.chain
                 && f.size <= g.size && f.arrays <= g.arrays && f.cells.Keys <= g.cells.Keys
    decreases |calls|
  {
    hide WellFormed, After;
    if calls != [] {
      var g, rest := After(f, params, calls[0]), calls[1..];
      GeometryStep(f, params, calls[0]);
      GeometryAlways(g, params, rest);
      NoNodeNothing(Run(f, params, calls).value);
      assert forall n | 0 < n < |calls| :: calls[n] == rest[n - 1];
      assert (exists n | 0 <= n < |calls| :: Trims(calls[n]))
             <==> Trims(calls[0]) || exists n | 0 <= n < |rest| :: Trims(rest[n]);
    }
  }

  // ---------- what becomes of a device without a node ----------

  lemma NoNodeNothing(f: File)
    requires WellFormed(f)
    ensures f.chain == 0 ==> f.size == 0 && f.arrays == {} && f.cells == map[]
  {
  }

  // A write without a node changes nothing.
  lemma NoNodeNoWrite(f: File, pos: nat, buf: seq<byte>, env: WriteEnv)
    requires WellFormed(f) && f.chain == 0 && (env.lock ==> Shaped(f))
    ensures var w := Write(f, pos, buf, env);
            w.file == f && w.pos == pos && w.ret == Err(if env.lock then EINVAL else ERESTARTSYS)
  {
  }

  // No call of the driver allocates a node.  Once a write-only open has trimmed the device, and on
  // the driver's own device from the start, no call of any run stores or delivers a byte.
  lemma {:induction false} TrimmedForGood(f: File, params: Params, calls: seq<Call>, last: Call)
    requires WellFormed(f) && f.chain == 0
    requires Run(f, params, calls).Some? && !DividesByZero(Run(f, params, calls).value, last)
    ensures var f' := Run(f, params, calls).value;
            && f'.chain == 0 && f'.size == 0 && f'.cells == map[]
            && (last.WriteAt? ==>
                  && Write(f', last.pos, last.buf, last.env).file == f'
                  && Write(f', last.pos, last.buf, last.env).ret.Err?)
            && (last.ReadAt? ==> Read(f', last.pos, last.count, last.renv).out == [])
    decreases |calls|
  {
    if calls == [] {
      if last.WriteAt? {
        NoNodeNoWrite(f, last.pos, last.buf, last.env);
      }
    } else {
      if calls[0].WriteAt? {
        NoNodeNoWrite(f, calls[0].pos, calls[0].buf, calls[0].env);
      }
      TrimmedForGood(After(f, params, calls[0]), params, calls[1..], last);
    }
  }

  // ---------- agreement with a plain byte file ----------

  // What an observer knows who sees the calls, their results and which bytes a faulting copy moved
  // before it stopped: the bytes that were written since the last trim, and how far successful
  // writes reached.  The quantum tells the observer where a faulting copy was due to end.
  datatype Plain = Plain(bytes: map<nat, byte>, size: nat)

  function Put(m: map<nat, byte>, pos: nat, bytes: seq<byte>): (r: map<nat, byte>)
    ensures forall p: nat :: p in r <==> p in m || pos <= p < pos + |bytes|
    ensures forall p: nat | p in r :: r[p] == if pos <= p < pos + |bytes| then bytes[p - pos] else m[p]
    decreases |bytes|
  {
    if bytes == [] then m else Put(m[pos := bytes[0]], pos + 1, bytes[1..])
  }

  ghost function Observe(plain: Plain, quantum: nat, call: Call, ret: Ret): Plain
    requires ret == Err(EFAULT) ==> 0 < quantum
  {
    match call
    case Open(writeOnly) => if writeOnly then Plain(map[], 0) else plain
    case ReadAt(_, _, _) => plain
    case WriteAt(pos, buf, env) =>
      match ret
      case Ok(n) => Plain(Put(plain.bytes, pos, buf[..Min(n, |buf|)]), Max(plain.size, pos + n))
      case Err(e) =>
        if e == EFAULT
        then plain.(bytes := Put(plain.bytes, pos, Landing(buf, Clip(quantum, pos, |buf|), env.copy)))
        else plain
  }

  ghost function Result(f: File, call: Call): (ret: Ret)
    requires WellFormed(f) && !DividesByZero(f, call)
    ensures ret == Err(EFAULT) ==> Shaped(f)
  {
    match call
    case Open(_) => Ok(0)
    case ReadAt(pos, count, renv) => Read(f, pos, count, renv).ret
    case WriteAt(pos, buf, env) => Write(f, pos, buf, env).ret
  }

  ghost function ObserveAll(plain: Plain, f: File, params: Params, calls: seq<Call>): Plain
    requires WellFormed(f) && Run(f, params, calls).Some?
    decreases |calls|
  {
    if calls == [] then plain else
      var seen := Observe(plain, f.quantum, calls[0], Result(f, calls[0]));
      ObserveAll(seen, After(f, params, calls[0]), params, calls[1..])
  }

  ghost predicate Agrees(f: File, plain: Plain) {
    && f.size == plain.size
    && forall p: nat | p in plain.bytes :: ByteAt(f, p) == Some(plain.bytes[p])
  }

  lemma AgreesStep(f: File, params: Params, plain: Plain, call: Call)
    requires WellFormed(f) && !DividesByZero(f, call) && Agrees(f, plain)
    ensures Agrees(After(f, params, call), Observe(plain, f.quantum, call, Result(f, call)))
  {
    hide ByteAt, Quot, Rem, WellFormed, Put, HasSlots, HasBlock;
    if call.WriteAt? {
      var f', plain' := After(f, params, call), Observe(plain, f.quantum, call, Result(f, call));
      WriteStatus(f, call.pos, call.buf, call.env);
      forall p: nat | p in plain'.bytes
        ensures ByteAt(f', p) == Some(plain'.bytes[p])
      {
        WriteByte(f, call.pos, call.buf, call.env, p);
      }
    }
  }

  // In every run the device holds what the observer expects of a plain file.
  lemma {:induction false} AgreesAlways(f: File, params: Params, plain: Plain, calls: seq<Call>)
    requires WellFormed(f) && Agrees(f, plain)
    requires Run(f, params, calls).Some?
    ensures Agrees(Run(f, params, calls).value, ObserveAll(plain, f, params, calls))
    decreases |calls|
  {
    if calls != [] {
      AgreesStep(f, params, plain, calls[0]);
      AgreesAlways(After(f, params, calls[0]), params,
                   Observe(plain, f.quantum, calls[0], Result(f, calls[0])), calls[1..]);
    }
  }

  // So after any run a read delivers, at every position written before, the byte written last;
  // and it never comes back empty-handed from such a position below the size.
  lemma ReadsLastWrite(f: File, params: Params, calls: seq<Call>, pos: nat, count: nat, renv: ReadEnv)
    requires WellFormed(f) && f.size == 0
    requires Run(f, params, calls).Some?
    ensures var plain := ObserveAll(Plain(map[], 0), f, params, calls);
            var r := Read(Run(f, params, calls).value, pos, count, renv);
            && (forall i | 0 <= i < |r.out| && pos + i in plain.bytes :: r.out[i] == plain.bytes[pos + i])
            && (pos in plain.bytes && pos < plain.size && 0 < count && r.ret.Ok? ==> 0 < r.ret.n)
            && (pos >= plain.size && r.ret.Ok? ==> r.ret.n == 0)
  {
    AgreesAlways(f, params, Plain(map[], 0), calls);
    ReadBytes(Run(f, params, calls).value, pos, count, renv);
  }
}
