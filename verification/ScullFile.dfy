/**
 * What the scull3 device means to its users: a sparse file of fixed-size quanta.
 *
 * `cells` holds the quanta that have been allocated, keyed by their index in the file
 * (position / quantum), so this view knows nothing of nodes, slots or pointers.  `arrays`
 * remembers which nodes already own a pointer array: it decides whether a write needs memory
 * for one.  Class Scull.ScullDev implements this view with linked nodes.
 */
module ScullFile {
  import opened Kernel

  // `counting` tells how scull_follow walks the chain.  The loop of the source never increments
  // its counter (counting == false); the comments of its callers promise that it does
  // (counting == true).  Everything below holds for both.
  datatype File = File(
    quantum: nat,
    qset: nat,
    chain: nat,
    counting: bool,
    size: nat,
    arrays: set<nat>,
    cells: map<nat, seq<byte>>)

  // ---------- scull_follow ----------

  // The index of the node that scull_follow returns for `item` on a chain of `chain` nodes.
  function FollowIndex(counting: bool, chain: nat, item: nat): Option<nat> {
    if item < chain && (counting || item == 0) then Some(item) else None
  }

  // The source's loop meets its callers' comment exactly on these inputs.
  lemma FollowAgrees(chain: nat, item: nat)
    ensures FollowIndex(false, chain, item) == FollowIndex(true, chain, item) <==> item == 0 || chain <= item
  {
  }

  // How many nodes scull_follow can hand out.
  function Reach(f: File): nat {
    if f.counting then f.chain else Min(f.chain, 1)
  }

  function Capacity(f: File): nat {
    Reach(f) * (f.quantum * f.qset)
  }

  // ---------- positions ----------

  datatype Place = Place(item: nat, slot: nat, offset: nat)

  // The source's arithmetic on a file position.
  function Split(quantum: nat, qset: nat, pos: nat): Place
    requires 0 < quantum && 0 < qset
  {
    var itemsize := quantum * qset;
    assert 0 < itemsize;
    var rest := pos % itemsize;
    Place(pos / itemsize, rest / quantum, rest % quantum)
  }

  function Join(quantum: nat, qset: nat, p: Place): nat {
    (p.item * qset + p.slot) * quantum + p.offset
  }

  lemma JoinSplit(quantum: nat, qset: nat, pos: nat)
    requires 0 < quantum && 0 < qset
    ensures var p := Split(quantum, qset, pos);
            && Join(quantum, qset, p) == pos
            && p.slot < qset && p.offset < quantum
            && p.item * qset + p.slot == Quot(pos, quantum)
            && p.offset == Rem(pos, quantum)
            && p.item == Quot(Quot(pos, quantum), qset)
            && p.slot == Rem(Quot(pos, quantum), qset)
  {
    var p := Split(quantum, qset, pos);
    var itemsize := quantum * qset;
    var rest := pos % itemsize;
    DivModIdentity(pos, itemsize);
    DivModIdentity(rest, quantum);
    if qset <= p.slot {
      MulMonotone(qset, p.slot, quantum);
    }
    JoinExpand(quantum, qset, p);
    DivModUnique(pos, quantum, p.item * qset + p.slot, p.offset);
    DivModUnique(pos / quantum, qset, p.item, p.slot);
    DivMod(pos, quantum);
    DivMod(pos / quantum, qset);
  }

  lemma JoinExpand(quantum: nat, qset: nat, p: Place)
    ensures Join(quantum, qset, p) == p.item * (quantum * qset) + (p.slot * quantum + p.offset)
  {
    assert (p.item * qset + p.slot) * quantum == p.item * qset * quantum + p.slot * quantum;
  }

  lemma SplitJoin(quantum: nat, qset: nat, p: Place)
    requires p.slot < qset && p.offset < quantum
    ensures Split(quantum, qset, Join(quantum, qset, p)) == p
  {
    var pos := Join(quantum, qset, p);
    assert pos / quantum == p.item * qset + p.slot && pos % quantum == p.offset by {
      DivModUnique(pos, quantum, p.item * qset + p.slot, p.offset);
    }
    assert pos / quantum / qset == p.item && pos / quantum % qset == p.slot by {
      DivModUnique(p.item * qset + p.slot, qset, p.item, p.slot);
    }
    assert Split(quantum, qset, pos) == p by {
      hide Split, Join;
      JoinSplit(quantum, qset, pos);
      DivMod(pos, quantum);
      DivMod(pos / quantum, qset);
    }
  }

  // scull_write divides by the geometry once it has the semaphore, so by then it must have been
  // set (scull_trim does).
  predicate Shaped(f: File) {
    0 < f.quantum && 0 < f.qset
  }

  predicate InReach(f: File, pos: nat) {
    Shaped(f) && Quot(Quot(pos, f.quantum), f.qset) < Reach(f)
  }

  // scull_follow finds a node for a position exactly when the position lies below the capacity.
  lemma ReachIsCapacity(f: File, pos: nat)
    requires Shaped(f)
    ensures InReach(f, pos) <==> pos < Capacity(f)
  {
    JoinSplit(f.quantum, f.qset, pos);
    DivModIdentity(pos, f.quantum * f.qset);
    BelowMultiple(pos / (f.quantum * f.qset), pos % (f.quantum * f.qset), f.quantum * f.qset, Reach(f));
  }

  lemma BelowMultiple(item: nat, rest: nat, itemsize: nat, reach: nat)
    requires rest < itemsize
    ensures item < reach <==> item * itemsize + rest < reach * itemsize
  {
    if item < reach {
      MulMonotone(item + 1, reach, itemsize);
    } else {
      MulMonotone(reach, item, itemsize);
    }
  }

  ghost predicate WellFormed(f: File) {
    && (Shaped(f) || (f.chain == 0 && f.cells == map[]))
    && (f.size == 0 || InReach(f, f.size - 1))
    && (forall i <- f.arrays :: i < Reach(f))
    && (forall k <- f.cells :: Shaped(f) && Quot(k, f.qset) in f.arrays && |f.cells[k]| == f.quantum)
  }

  lemma GrowArrays(f: File, item: nat)
    requires WellFormed(f) && item < Reach(f)
    ensures WellFormed(f.(arrays := f.arrays + {item}))
  {
  }

  lemma GrowCells(f: File, k: nat, cell: seq<byte>)
    requires WellFormed(f) && Shaped(f) && Quot(k, f.qset) in f.arrays && |cell| == f.quantum
    ensures WellFormed(f.(cells := f.cells[k := cell]))
  {
  }

  lemma CellLength(f: File, k: nat)
    requires WellFormed(f) && k in f.cells
    ensures |f.cells[k]| == f.quantum && Quot(k, f.qset) in f.arrays
  {
  }

  // The byte stored at a position, or None inside a hole.
  ghost function ByteAt(f: File, pos: nat): Option<byte> {
    if Shaped(f) && Quot(pos, f.quantum) in f.cells && Rem(pos, f.quantum) < |f.cells[Quot(pos, f.quantum)]|
    then Some(f.cells[Quot(pos, f.quantum)][Rem(pos, f.quantum)])
    else None
  }

  // ---------- scull_read and scull_write ----------

  // What copy_from_user does: all of it, or a fault after it put some bytes into the destination.
  datatype CopyIn = Whole | Fault(landed: seq<byte>)

  // The outside world during one write: the semaphore, the two allocations (a new quantum is
  // not cleared, so it comes with arbitrary contents) and the copy from user memory.
  datatype WriteEnv = WriteEnv(lock: bool, arrayMem: bool, quantumMem: Option<nat -> byte>, copy: CopyIn)

  // The outside world during one read: the semaphore, and how many bytes copy_to_user moves
  // before it faults, if it does.
  datatype ReadEnv = ReadEnv(lock: bool, fault: Option<nat>)

  datatype Written = Written(file: File, pos: nat, ret: Ret)

  datatype Delivered = Delivered(pos: nat, ret: Ret, out: seq<byte>)

  function Overlay(cell: seq<byte>, at: nat, bytes: seq<byte>): (r: seq<byte>)
    requires at + |bytes| <= |cell|
    ensures |r| == |cell|
    ensures forall i | 0 <= i < |cell| :: r[i] == if at <= i < at + |bytes| then bytes[i - at] else cell[i]
  {
    cell[..at] + bytes + cell[at + |bytes|..]
  }

  // How much of a request fits into the quantum it starts in.
  function Clip(quantum: nat, pos: nat, count: nat): (n: nat)
    requires 0 < quantum
    ensures n <= count && Rem(pos, quantum) + n <= quantum
    ensures 0 < count ==> 0 < n
  {
    Min(count, quantum - Rem(pos, quantum))
  }

  lemma ClipIs(quantum: nat, pos: nat, count: nat)
    requires 0 < quantum
    ensures var room := quantum - Rem(pos, quantum);
            Clip(quantum, pos, count) == if count > room then room else count
  {
  }

  // A quantum as kmalloc hands it out: not cleared.
  function Junk(quantum: nat, junk: nat -> byte): (cell: seq<byte>)
    ensures |cell| == quantum
  {
    seq(quantum, i requires 0 <= i => junk(i))
  }

  // The quantum that a write to slot k finds or allocates.
  ghost function Block(f: File, k: nat, mem: Option<nat -> byte>): (cell: seq<byte>)
    requires WellFormed(f) && (k in f.cells || mem.Some?)
    ensures |cell| == f.quantum
    ensures forall i | 0 <= i < f.quantum :: cell[i] == if k in f.cells then f.cells[k][i] else mem.value(i)
  {
    if k in f.cells then f.cells[k] else Junk(f.quantum, mem.value)
  }

  // The bytes that a copy from user memory leaves behind, out of the n it was asked for.
  function Landing(buf: seq<byte>, n: nat, copy: CopyIn): (bytes: seq<byte>)
    requires n <= |buf|
    ensures |bytes| <= n
  {
    match copy
    case Whole => buf[..n]
    case Fault(landed) => landed[..Min(|landed|, n)]
  }

  ghost function Write(f: File, pos: nat, buf: seq<byte>, env: WriteEnv): Written
    requires WellFormed(f) && (env.lock ==> Shaped(f))
  {
    if !env.lock then
      Written(f, pos, Err(ERESTARTSYS))
    else
      var k := Quot(pos, f.quantum);
      var item := Quot(k, f.qset);
      if !InReach(f, pos) || (item !in f.arrays && !env.arrayMem) then
        Written(f, pos, Err(EINVAL))
      else
        var f' := f.(arrays := f.arrays + {item});
        if k !in f.cells && env.quantumMem.None? then
          Written(f', pos, Err(EINVAL))
        else
          var n := Clip(f.quantum, pos, |buf|);
          var cell := Overlay(Block(f, k, env.quantumMem), Rem(pos, f.quantum), Landing(buf, n, env.copy));
          if env.copy.Fault? then
            Written(f'.(cells := f.cells[k := cell]), pos, Err(EFAULT))
          else
            Written(f'.(cells := f.cells[k := cell], size := Max(f.size, pos + n)), pos + n, Ok(n))
  }

  lemma LockedOut(f: File, pos: nat, buf: seq<byte>, env: WriteEnv)
    requires WellFormed(f) && !env.lock
    ensures Write(f, pos, buf, env) == Written(f, pos, Err(ERESTARTSYS))
  {
  }

  // A write in the steps of the source: first the node's pointers, then the quantum, then the copy.
  ghost predicate HasSlots(f: File, pos: nat, env: WriteEnv) {
    InReach(f, pos) && (Quot(Quot(pos, f.quantum), f.qset) in f.arrays || env.arrayMem)
  }

  ghost predicate HasBlock(f: File, pos: nat, env: WriteEnv)
    requires Shaped(f)
  {
    Quot(pos, f.quantum) in f.cells || env.quantumMem.Some?
  }

  ghost function WithArray(f: File, pos: nat): File
    requires Shaped(f)
  {
    f.(arrays := f.arrays + {Quot(Quot(pos, f.quantum), f.qset)})
  }

  ghost function WithBlock(f: File, pos: nat, mem: Option<nat -> byte>): File
    requires Shaped(f)
    requires Quot(pos, f.quantum) in f.cells || mem.Some?
  {
    var k := Quot(pos, f.quantum);
    if k in f.cells then f else f.(cells := f.cells[k := Junk(f.quantum, mem.value)])
  }

  ghost function WithBytes(f: File, pos: nat, bytes: seq<byte>): (r: File)
    requires Shaped(f)
    requires Quot(pos, f.quantum) in f.cells && Rem(pos, f.quantum) + |bytes| <= |f.cells[Quot(pos, f.quantum)]|
    ensures r.arrays == f.arrays && r.cells.Keys == f.cells.Keys
  {
    var k := Quot(pos, f.quantum);
    f.(cells := f.cells[k := Overlay(f.cells[k], Rem(pos, f.quantum), bytes)])
  }

  function Extended(f: File, end: nat): (r: File)
    ensures r.arrays == f.arrays && r.cells == f.cells
  {
    f.(size := Max(f.size, end))
  }

  // What a write that reached its quantum comes to.
  function StoredAs(h: File, pos: nat, n: nat, copy: CopyIn): Written {
    if copy.Fault? then Written(h, pos, Err(EFAULT)) else Written(Extended(h, pos + n), pos + n, Ok(n))
  }

  lemma WriteInSteps(f: File, pos: nat, buf: seq<byte>, env: WriteEnv)
    requires WellFormed(f) && Shaped(f)
    ensures var w, n := Write(f, pos, buf, env), Clip(f.quantum, pos, |buf|);
            && (!env.lock ==> w == Written(f, pos, Err(ERESTARTSYS)))
            && (env.lock && !HasSlots(f, pos, env) ==> w == Written(f, pos, Err(EINVAL)))
            && (env.lock && HasSlots(f, pos, env) && !HasBlock(f, pos, env) ==>
                  w == Written(WithArray(f, pos), pos, Err(EINVAL)))
            && (env.lock && HasSlots(f, pos, env) && HasBlock(f, pos, env) ==>
                  var g, k := WithBlock(WithArray(f, pos), pos, env.quantumMem), Quot(pos, f.quantum);
                  && Shaped(g) && g.quantum == f.quantum && k in g.cells && |g.cells[k]| == f.quantum
                  && var h := WithBytes(g, pos, Landing(buf, n, env.copy));
                     w == StoredAs(h, pos, n, env.copy))
  {
    hide Quot, Rem;
  }

  // copy_to_user, and what scull_read does with its outcome.
  function CopyOut(cell: seq<byte>, pos: nat, off: nat, n: nat, fault: Option<nat>): Delivered
    requires off + n <= |cell|
  {
    match fault
    case Some(m) => Delivered(pos, Err(EFAULT), cell[off..off + Min(m, n)])
    case None => Delivered(pos + n, Ok(n), cell[off..off + n])
  }

  ghost function Read(f: File, pos: nat, count: nat, env: ReadEnv): Delivered
    requires WellFormed(f)
  {
    if !env.lock then
      Delivered(pos, Err(ERESTARTSYS), [])
    else if pos >= f.size || ByteAt(f, pos).None? then
      Delivered(pos, Ok(0), [])
    else
      var n := Clip(f.quantum, pos, Min(count, f.size - pos));
      CopyOut(f.cells[Quot(pos, f.quantum)], pos, Rem(pos, f.quantum), n, env.fault)
  }

  function Trim(f: File, quantum: nat, qset: nat): File {
    File(quantum, qset, 0, f.counting, 0, {}, map[])
  }

  lemma TrimWellFormed(f: File, quantum: nat, qset: nat)
    ensures WellFormed(Trim(f, quantum, qset))
  {
  }
}
