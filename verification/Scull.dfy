/**
 * The scull3 device as the driver keeps it: a linked list of nodes, each pointing to an array
 * of pointers, each pointing to a quantum of bytes, all of them blocks of kernel memory.  Memory
 * is a map from addresses to blocks, so that every load and store owes a proof that its block is
 * still allocated, and kfree a proof that it is not given back twice.  Every operation is
 * proved against the flat view of module ScullFile.
 */
module Scull {
  import opened Kernel
  import opened ScullFile
  import opened ScullLaws

  type Ptr = nat

  const NULL: Ptr := 0

  datatype Block =
    | Node(data: Ptr, next: Ptr)   // struct scull_qset
    | Slots(ptrs: seq<Ptr>)        // what its data points to
    | Bytes(bytes: seq<byte>)      // a quantum

  type Memory = map<Ptr, Block>

  // ---------- how a file lies in memory ----------

  // Where a block hangs: a node by its place in the chain, a pointer array by its node, a
  // quantum by its index in the file.
  datatype Home = NodeHome(item: nat) | SlotsHome(item: nat) | QuantumHome(k: nat)

  datatype Layout = Layout(nodes: seq<Ptr>, arrays: map<nat, Ptr>, quanta: map<nat, Ptr>, home: map<Ptr, Home>)

  function NodeAt(lay: Layout, i: nat): Ptr {
    if i < |lay.nodes| then lay.nodes[i] else NULL
  }

  function SlotsAt(lay: Layout, i: nat): Ptr {
    if i in lay.arrays then lay.arrays[i] else NULL
  }

  // Every block hangs in one place only: where its home says.
  ghost predicate Homes(lay: Layout) {
    && NULL !in lay.home
    && (forall i | 0 <= i < |lay.nodes| :: lay.nodes[i] in lay.home && lay.home[lay.nodes[i]] == NodeHome(i))
    && (forall i <- lay.arrays ::
          i < |lay.nodes| && lay.arrays[i] in lay.home && lay.home[lay.arrays[i]] == SlotsHome(i))
    && (forall k <- lay.quanta :: lay.quanta[k] in lay.home && lay.home[lay.quanta[k]] == QuantumHome(k))
    && NoStray(lay)
  }

  // And no allocated block hangs nowhere.
  ghost predicate NoStray(lay: Layout) {
    forall p <- lay.home ::
      match lay.home[p]
      case NodeHome(i) => i < |lay.nodes| && lay.nodes[i] == p
      case SlotsHome(i) => i in lay.arrays && lay.arrays[i] == p
      case QuantumHome(k) => k in lay.quanta && lay.quanta[k] == p
  }

  ghost predicate ChainLaid(mem: Memory, lay: Layout) {
    && (forall i | 0 <= i < |lay.nodes| :: lay.nodes[i] in mem)
    && (forall i {:trigger mem[lay.nodes[i]]} | 0 <= i < |lay.nodes| ::
          mem[lay.nodes[i]] == Node(SlotsAt(lay, i), NodeAt(lay, i + 1)))
  }

  // The pointer q belongs into slot s of node i.
  ghost predicate Belongs(lay: Layout, qset: nat, q: Ptr, i: nat, s: nat) {
    && q in lay.home && lay.home[q].QuantumHome?
    && 0 < qset && Quot(lay.home[q].k, qset) == i && Rem(lay.home[q].k, qset) == s
  }

  ghost predicate SlotsLaid(mem: Memory, lay: Layout, qset: nat) {
    forall i <- lay.arrays ::
      && lay.arrays[i] in mem && mem[lay.arrays[i]].Slots? && |mem[lay.arrays[i]].ptrs| == qset
      && forall s | 0 <= s < qset && mem[lay.arrays[i]].ptrs[s] != NULL ::
            Belongs(lay, qset, mem[lay.arrays[i]].ptrs[s], i, s)
  }

  ghost predicate QuantaLaid(mem: Memory, lay: Layout, quantum: nat, qset: nat) {
    forall k <- lay.quanta ::
      && lay.quanta[k] in mem && mem[lay.quanta[k]].Bytes? && |mem[lay.quanta[k]].bytes| == quantum
      && 0 < qset && Quot(k, qset) in lay.arrays && lay.arrays[Quot(k, qset)] in mem
      && mem[lay.arrays[Quot(k, qset)]].Slots? && |mem[lay.arrays[Quot(k, qset)]].ptrs| == qset
      && mem[lay.arrays[Quot(k, qset)]].ptrs[Rem(k, qset)] == lay.quanta[k]
  }

  ghost predicate Laid(mem: Memory, lay: Layout, quantum: nat, qset: nat) {
    && mem.Keys == lay.home.Keys
    && Homes(lay) && ChainLaid(mem, lay) && SlotsLaid(mem, lay, qset) && QuantaLaid(mem, lay, quantum, qset)
  }

  ghost function Cells(mem: Memory, lay: Layout, quantum: nat, qset: nat): (r: map<nat, seq<byte>>)
    requires QuantaLaid(mem, lay, quantum, qset)
    ensures r.Keys == lay.quanta.Keys
    ensures forall k <- lay.quanta :: lay.quanta[k] in mem && mem[lay.quanta[k]] == Bytes(r[k])
  {
    map k <- lay.quanta :: mem[lay.quanta[k]].bytes
  }

  lemma OneHome(lay: Layout)
    requires Homes(lay)
    ensures forall i, j | 0 <= i < j < |lay.nodes| :: lay.nodes[i] != lay.nodes[j]
    ensures forall i, j | i in lay.arrays && j in lay.arrays && i != j :: lay.arrays[i] != lay.arrays[j]
    ensures forall k, l | k in lay.quanta && l in lay.quanta && k != l :: lay.quanta[k] != lay.quanta[l]
    ensures forall i, j | 0 <= i < |lay.nodes| && j in lay.arrays :: lay.nodes[i] != lay.arrays[j]
    ensures forall i, k | 0 <= i < |lay.nodes| && k in lay.quanta :: lay.nodes[i] != lay.quanta[k]
    ensures forall i, k | i in lay.arrays && k in lay.quanta :: lay.arrays[i] != lay.quanta[k]
  {
    hide NoStray;
  }

  lemma HomesKnown(lay: Layout)
    requires Homes(lay)
    ensures NULL !in lay.home
    ensures forall i | 0 <= i < |lay.nodes| :: lay.nodes[i] in lay.home
    ensures forall i <- lay.arrays :: i < |lay.nodes| && lay.arrays[i] in lay.home
    ensures forall k <- lay.quanta :: lay.quanta[k] in lay.home
  {
    hide NoStray;
  }

  lemma ChainKnown(mem: Memory, lay: Layout, quantum: nat, qset: nat)
    requires Laid(mem, lay, quantum, qset)
    ensures forall i | 0 <= i < |lay.nodes| :: lay.nodes[i] != NULL && lay.nodes[i] in mem
    ensures forall i {:trigger mem[lay.nodes[i]]} | 0 <= i < |lay.nodes| ::
              mem[lay.nodes[i]] == Node(SlotsAt(lay, i), NodeAt(lay, i + 1))
  {
    hide SlotsLaid, QuantaLaid, NoStray;
  }

  lemma LaidQuanta(mem: Memory, lay: Layout, quantum: nat, qset: nat)
    requires Laid(mem, lay, quantum, qset)
    ensures QuantaLaid(mem, lay, quantum, qset)
  {
  }

  // ---------- the three ways a write changes memory ----------

  // A pointer array after memset.
  function NoPointers(qset: nat): (r: seq<Ptr>)
    ensures |r| == qset && forall s | 0 <= s < qset :: r[s] == NULL
  {
    seq(qset, _ => NULL)
  }

  function AddSlots(mem: Memory, node: Ptr, p: Ptr, qset: nat): (r: Memory)
    requires node in mem && mem[node].Node? && p !in mem
    ensures r.Keys == mem.Keys + {p}
  {
    var m := mem[p := Slots(NoPointers(qset))];
    m[node := m[node].(data := p)]
  }

  function WithSlots(lay: Layout, item: nat, p: Ptr): Layout {
    lay.(arrays := lay.arrays[item := p], home := lay.home[p := SlotsHome(item)])
  }

  lemma HomesWithSlots(lay: Layout, item: nat, p: Ptr)
    requires Homes(lay) && item < |lay.nodes| && item !in lay.arrays && p !in lay.home && p != NULL
    ensures Homes(WithSlots(lay, item, p))
  {
  }

  lemma ChainWithSlots(mem: Memory, lay: Layout, quantum: nat, qset: nat, item: nat, p: Ptr)
    requires Laid(mem, lay, quantum, qset)
    requires item < |lay.nodes| && item !in lay.arrays && p !in mem && p != NULL
    ensures lay.nodes[item] in mem && mem[lay.nodes[item]].Node?
    ensures ChainLaid(AddSlots(mem, lay.nodes[item], p, qset), WithSlots(lay, item, p))
  {
    hide NoStray, Homes, Quot, Rem, SlotsLaid, QuantaLaid;
    OneHome(lay);
    HomesKnown(lay);
  }

  lemma SlotsWithSlots(mem: Memory, lay: Layout, quantum: nat, qset: nat, item: nat, p: Ptr)
    requires Laid(mem, lay, quantum, qset)
    requires item < |lay.nodes| && item !in lay.arrays && p !in mem && p != NULL
    ensures lay.nodes[item] in mem && mem[lay.nodes[item]].Node?
    ensures SlotsLaid(AddSlots(mem, lay.nodes[item], p, qset), WithSlots(lay, item, p), qset)
  {
    hide NoStray, Homes, Quot, Rem, QuantaLaid, NoPointers;
    OneHome(lay);
    HomesKnown(lay);
  }

  lemma QuantaWithSlots(mem: Memory, lay: Layout, quantum: nat, qset: nat, item: nat, p: Ptr)
    requires Laid(mem, lay, quantum, qset)
    requires item < |lay.nodes| && item !in lay.arrays && p !in mem && p != NULL
    ensures lay.nodes[item] in mem && mem[lay.nodes[item]].Node?
    ensures QuantaLaid(AddSlots(mem, lay.nodes[item], p, qset), WithSlots(lay, item, p), quantum, qset)
  {
    hide NoStray, Homes, Quot, Rem, SlotsLaid;
    OneHome(lay);
    HomesKnown(lay);
  }

  lemma CellsWithSlots(mem: Memory, lay: Layout, quantum: nat, qset: nat, item: nat, p: Ptr)
    requires Laid(mem, lay, quantum, qset)
    requires item < |lay.nodes| && item !in lay.arrays && p !in mem && p != NULL
    ensures lay.nodes[item] in mem && mem[lay.nodes[item]].Node?
    ensures var mem', lay' := AddSlots(mem, lay.nodes[item], p, qset), WithSlots(lay, item, p);
            QuantaLaid(mem', lay', quantum, qset) && Cells(mem', lay', quantum, qset) == Cells(mem, lay, quantum, qset)
  {
    hide NoStray, Homes, Quot, Rem, SlotsLaid, QuantaLaid, Cells;
    QuantaWithSlots(mem, lay, quantum, qset, item, p);
    LaidQuanta(mem, lay, quantum, qset);
    OneHome(lay);
    HomesKnown(lay);
  }

  lemma LaidWithSlots(mem: Memory, lay: Layout, quantum: nat, qset: nat, item: nat, p: Ptr)
    requires Laid(mem, lay, quantum, qset)
    requires item < |lay.nodes| && item !in lay.arrays && p !in mem && p != NULL
    ensures lay.nodes[item] in mem && mem[lay.nodes[item]].Node?
    ensures var mem', lay' := AddSlots(mem, lay.nodes[item], p, qset), WithSlots(lay, item, p);
            && Laid(mem', lay', quantum, qset)
            && Cells(mem', lay', quantum, qset) == Cells(mem, lay, quantum, qset)
  {
    hide Homes, SlotsLaid, QuantaLaid, Cells;
    ChainWithSlots(mem, lay, quantum, qset, item, p);
    SlotsWithSlots(mem, lay, quantum, qset, item, p);
    QuantaWithSlots(mem, lay, quantum, qset, item, p);
    CellsWithSlots(mem, lay, quantum, qset, item, p);
    HomesWithSlots(lay, item, p);
    HomesKnown(lay);
  }

  function AddQuantum(mem: Memory, slots: Ptr, s: nat, p: Ptr, cell: seq<byte>): (r: Memory)
    requires slots in mem && mem[slots].Slots? && s < |mem[slots].ptrs| && p !in mem
    ensures r.Keys == mem.Keys + {p}
  {
    var m := mem[p := Bytes(cell)];
    m[slots := Slots(m[slots].ptrs[s := p])]
  }

  function WithQuantum(lay: Layout, k: nat, p: Ptr): Layout {
    lay.(quanta := lay.quanta[k := p], home := lay.home[p := QuantumHome(k)])
  }

  lemma HomesWithQuantum(lay: Layout, k: nat, p: Ptr)
    requires Homes(lay) && k !in lay.quanta && p !in lay.home && p != NULL
    ensures Homes(WithQuantum(lay, k, p))
  {
  }

  // The slot of a quantum that does not exist holds no pointer.
  lemma NullSlot(mem: Memory, lay: Layout, quantum: nat, qset: nat, k: nat)
    requires Laid(mem, lay, quantum, qset)
    requires 0 < qset && Quot(k, qset) in lay.arrays
    ensures var slots := lay.arrays[Quot(k, qset)];
            && slots in mem && mem[slots].Slots? && |mem[slots].ptrs| == qset
            && mem[slots].ptrs[Rem(k, qset)] == if k in lay.quanta then lay.quanta[k] else NULL
  {
    hide Homes, NoStray, Quot, Rem, ChainLaid;
    var q := mem[lay.arrays[Quot(k, qset)]].ptrs[Rem(k, qset)];
    if q != NULL {
      NotStray(lay, q);
      EqualQuotients(lay.home[q].k, k, qset);
    } else {
      HomesKnown(lay);
    }
  }

  lemma NotStray(lay: Layout, q: Ptr)
    requires Homes(lay) && q in lay.home && lay.home[q].QuantumHome?
    ensures lay.home[q].k in lay.quanta && lay.quanta[lay.home[q].k] == q
  {
  }

  lemma ChainWithQuantum(mem: Memory, lay: Layout, quantum: nat, qset: nat, k: nat, p: Ptr, cell: seq<byte>)
    requires Laid(mem, lay, quantum, qset)
    requires 0 < qset && Quot(k, qset) in lay.arrays && k !in lay.quanta && p !in mem && p != NULL && |cell| == quantum
    ensures var slots := lay.arrays[Quot(k, qset)];
            slots in mem && mem[slots].Slots? && |mem[slots].ptrs| == qset
    ensures ChainLaid(AddQuantum(mem, lay.arrays[Quot(k, qset)], Rem(k, qset), p, cell), WithQuantum(lay, k, p))
  {
    hide NoStray, Homes, Quot, Rem, QuantaLaid, NoPointers;
    OneHome(lay);
    HomesKnown(lay);
  }

  lemma SlotsWithQuantum(mem: Memory, lay: Layout, quantum: nat, qset: nat, k: nat, p: Ptr, cell: seq<byte>)
    requires Laid(mem, lay, quantum, qset)
    requires 0 < qset && Quot(k, qset) in lay.arrays && k !in lay.quanta && p !in mem && p != NULL && |cell| == quantum
    ensures var slots := lay.arrays[Quot(k, qset)];
            slots in mem && mem[slots].Slots? && |mem[slots].ptrs| == qset
    ensures SlotsLaid(AddQuantum(mem, lay.arrays[Quot(k, qset)], Rem(k, qset), p, cell), WithQuantum(lay, k, p), qset)
  {
    hide NoStray, Homes, Quot, Rem, ChainLaid;
    OneHome(lay);
    HomesKnown(lay);
  }

  lemma QuantaWithQuantum(mem: Memory, lay: Layout, quantum: nat, qset: nat, k: nat, p: Ptr, cell: seq<byte>)
    requires Laid(mem, lay, quantum, qset)
    requires 0 < qset && Quot(k, qset) in lay.arrays && k !in lay.quanta && p !in mem && p != NULL && |cell| == quantum
    ensures var slots := lay.arrays[Quot(k, qset)];
            slots in mem && mem[slots].Slots? && |mem[slots].ptrs| == qset
    ensures QuantaLaid(AddQuantum(mem, lay.arrays[Quot(k, qset)], Rem(k, qset), p, cell),
                       WithQuantum(lay, k, p), quantum, qset)
  {
    hide NoStray, Homes, Quot, Rem, ChainLaid;
    OneHome(lay);
    HomesKnown(lay);
    NullSlot(mem, lay, quantum, qset, k);
  }

  lemma KeptWithQuantum(mem: Memory, lay: Layout, quantum: nat, qset: nat, k: nat, p: Ptr, cell: seq<byte>)
    requires Laid(mem, lay, quantum, qset)
    requires 0 < qset && Quot(k, qset) in lay.arrays && k !in lay.quanta && p !in mem && p != NULL && |cell| == quantum
    ensures var slots := lay.arrays[Quot(k, qset)];
            slots in mem && mem[slots].Slots? && |mem[slots].ptrs| == qset
    ensures var mem', lay' := AddQuantum(mem, lay.arrays[Quot(k, qset)], Rem(k, qset), p, cell), WithQuantum(lay, k, p);
            && (forall j <- lay.quanta :: lay.quanta[j] in mem && mem'[lay'.quanta[j]] == mem[lay.quanta[j]])
            && mem'[p] == Bytes(cell)
  {
    hide NoStray, Homes, Quot, Rem, ChainLaid;
    OneHome(lay);
    HomesKnown(lay);
  }

  lemma CellsWithQuantum(mem: Memory, lay: Layout, quantum: nat, qset: nat, k: nat, p: Ptr, cell: seq<byte>)
    requires Laid(mem, lay, quantum, qset)
    requires 0 < qset && Quot(k, qset) in lay.arrays && k !in lay.quanta && p !in mem && p != NULL && |cell| == quantum
    ensures var slots := lay.arrays[Quot(k, qset)];
            slots in mem && mem[slots].Slots? && |mem[slots].ptrs| == qset
    ensures var mem', lay' := AddQuantum(mem, lay.arrays[Quot(k, qset)], Rem(k, qset), p, cell), WithQuantum(lay, k, p);
            && QuantaLaid(mem', lay', quantum, qset)
            && Cells(mem', lay', quantum, qset) == Cells(mem, lay, quantum, qset)[k := cell]
  {
    hide NoStray, Homes, Quot, Rem, ChainLaid, SlotsLaid, QuantaLaid, Cells;
    KeptWithQuantum(mem, lay, quantum, qset, k, p, cell);
    QuantaWithQuantum(mem, lay, quantum, qset, k, p, cell);
    LaidQuanta(mem, lay, quantum, qset);
  }

  lemma LaidWithQuantum(mem: Memory, lay: Layout, quantum: nat, qset: nat, k: nat, p: Ptr, cell: seq<byte>)
    requires Laid(mem, lay, quantum, qset)
    requires 0 < qset && Quot(k, qset) in lay.arrays && k !in lay.quanta && p !in mem && p != NULL && |cell| == quantum
    ensures var slots := lay.arrays[Quot(k, qset)];
            slots in mem && mem[slots].Slots? && |mem[slots].ptrs| == qset
    ensures var mem', lay' := AddQuantum(mem, lay.arrays[Quot(k, qset)], Rem(k, qset), p, cell), WithQuantum(lay, k, p);
            && Laid(mem', lay', quantum, qset)
            && Cells(mem', lay', quantum, qset) == Cells(mem, lay, quantum, qset)[k := cell]
  {
    hide Homes, SlotsLaid, QuantaLaid, Cells, Quot, Rem;
    ChainWithQuantum(mem, lay, quantum, qset, k, p, cell);
    SlotsWithQuantum(mem, lay, quantum, qset, k, p, cell);
    QuantaWithQuantum(mem, lay, quantum, qset, k, p, cell);
    CellsWithQuantum(mem, lay, quantum, qset, k, p, cell);
    HomesWithQuantum(lay, k, p);
    HomesKnown(lay);
  }

  lemma LaidOverwrite(mem: Memory, lay: Layout, quantum: nat, qset: nat, k: nat, cell: seq<byte>)
    requires Laid(mem, lay, quantum, qset)
    requires k in lay.quanta && |cell| == quantum
    ensures var mem' := mem[lay.quanta[k] := Bytes(cell)];
            && Laid(mem', lay, quantum, qset)
            && Cells(mem', lay, quantum, qset) == Cells(mem, lay, quantum, qset)[k := cell]
  {
    hide NoStray, Homes, Quot, Rem;
    OneHome(lay);
    HomesKnown(lay);
  }

  // ---------- what a trim frees ----------

  // Has block p been freed once the nodes before j, and the first s quanta of node j, are gone?
  ghost predicate Gone(lay: Layout, qset: nat, j: nat, s: nat, p: Ptr) {
    p in lay.home &&
    match lay.home[p]
    case NodeHome(i) => i < j
    case SlotsHome(i) => i < j
    case QuantumHome(k) => 0 < qset && (Quot(k, qset) < j || (Quot(k, qset) == j && Rem(k, qset) < s))
  }

  ghost function Remaining(mem: Memory, lay: Layout, qset: nat, j: nat, s: nat): Memory {
    map p <- mem | !Gone(lay, qset, j, s, p) :: mem[p]
  }

  lemma NothingGone(mem: Memory, lay: Layout, quantum: nat, qset: nat)
    requires Laid(mem, lay, quantum, qset)
    ensures Remaining(mem, lay, qset, 0, 0) == mem && NULL !in mem
  {
    hide Homes, ChainLaid, SlotsLaid, QuantaLaid, Quot, Rem;
    HomesKnown(lay);
  }

  lemma AllGone(mem: Memory, lay: Layout, quantum: nat, qset: nat)
    requires Laid(mem, lay, quantum, qset)
    ensures Remaining(mem, lay, qset, |lay.nodes|, 0) == map[]
  {
    hide ChainLaid, SlotsLaid, Quot, Rem;
    assert forall p <- mem :: Gone(lay, qset, |lay.nodes|, 0, p);
  }

  // The node and the pointer array of node j stay while its quanta go.
  lemma NodeStays(mem: Memory, lay: Layout, quantum: nat, qset: nat, j: nat, s: nat)
    requires Laid(mem, lay, quantum, qset) && j < |lay.nodes|
    ensures var node, slots, m := lay.nodes[j], SlotsAt(lay, j), Remaining(mem, lay, qset, j, s);
            && node in m && m[node] == mem[node] == Node(slots, NodeAt(lay, j + 1)) && node != slots
            && (slots != NULL ==>
                  && j in lay.arrays && slots in m && m[slots] == mem[slots]
                  && m[slots].Slots? && |m[slots].ptrs| == qset)
  {
    hide NoStray, QuantaLaid, Quot, Rem;
  }

  // Freeing what slot s of node j points to.
  lemma FreeQuantum(mem: Memory, lay: Layout, quantum: nat, qset: nat, j: nat, s: nat)
    requires Laid(mem, lay, quantum, qset) && j in lay.arrays && s < qset
    ensures lay.arrays[j] in mem && mem[lay.arrays[j]].Slots? && s < |mem[lay.arrays[j]].ptrs|
    ensures var q := mem[lay.arrays[j]].ptrs[s];
            && (q == NULL || q in Remaining(mem, lay, qset, j, s))
            && Remaining(mem, lay, qset, j, s) - {q} == Remaining(mem, lay, qset, j, s + 1)
  {
    hide ChainLaid, Quot, Rem;
    var q := mem[lay.arrays[j]].ptrs[s];
    forall p <- mem | Gone(lay, qset, j, s + 1, p) && !Gone(lay, qset, j, s, p)
      ensures p == q
    {
      NotStray(lay, p);
    }
  }

  // Freeing the pointer array and the node itself finishes node j.
  lemma FreeNode(mem: Memory, lay: Layout, quantum: nat, qset: nat, j: nat)
    requires Laid(mem, lay, quantum, qset) && j < |lay.nodes|
    ensures var node, slots := lay.nodes[j], SlotsAt(lay, j);
            Remaining(mem, lay, qset, j, if slots == NULL then 0 else qset) - {slots} - {node}
            == Remaining(mem, lay, qset, j + 1, 0)
  {
    hide Homes, ChainLaid, SlotsLaid, QuantaLaid, Quot, Rem, Gone;
    var node, slots := lay.nodes[j], SlotsAt(lay, j);
    forall p <- mem
      ensures Gone(lay, qset, j + 1, 0, p)
              <==> Gone(lay, qset, j, if slots == NULL then 0 else qset, p) || p == node || p == slots
    {
      GoneStep(mem, lay, quantum, qset, j, p);
    }
  }

  lemma GoneStep(mem: Memory, lay: Layout, quantum: nat, qset: nat, j: nat, p: Ptr)
    requires Laid(mem, lay, quantum, qset) && j < |lay.nodes| && p in mem
    ensures var node, slots := lay.nodes[j], SlotsAt(lay, j);
            Gone(lay, qset, j + 1, 0, p)
            <==> Gone(lay, qset, j, if slots == NULL then 0 else qset, p) || p == node || p == slots
  {
    hide ChainLaid, SlotsLaid, Quot, Rem;
  }

  // ---------- conservation of blocks ----------

  // Between two moments every block has either stayed allocated or been freed once: no block
  // is lost, none is freed twice.
  ghost predicate Conserved(freed: seq<Ptr>, mem: Memory, freed': seq<Ptr>, mem': Memory) {
    multiset(freed') + multiset(mem'.Keys) == multiset(freed) + multiset(mem.Keys)
  }

  lemma StillConserved(freed: seq<Ptr>, mem: Memory)
    ensures Conserved(freed, mem, freed, mem)
  {
  }

  // Storing into a block frees nothing.
  lemma SameBlocks(f0: seq<Ptr>, m0: Memory, f1: seq<Ptr>, m1: Memory, m2: Memory)
    requires Conserved(f0, m0, f1, m1) && m2.Keys == m1.Keys
    ensures Conserved(f0, m0, f1, m2)
  {
  }

  lemma ConservedTwice(f0: seq<Ptr>, m0: Memory, f1: seq<Ptr>, m1: Memory, f2: seq<Ptr>, m2: Memory)
    requires Conserved(f0, m0, f1, m1) && Conserved(f1, m1, f2, m2)
    ensures Conserved(f0, m0, f2, m2)
  {
  }

  // Every block ever obtained is either allocated now or has been freed exactly once.
  ghost predicate Accounted(got: seq<Ptr>, freed: seq<Ptr>, mem: Memory) {
    multiset(got) == multiset(freed) + multiset(mem.Keys)
  }

  lemma AccountedConserved(got: seq<Ptr>, freed: seq<Ptr>, mem: Memory, freed': seq<Ptr>, mem': Memory)
    requires Accounted(got, freed, mem) && Conserved(freed, mem, freed', mem')
    ensures Accounted(got, freed', mem')
  {
  }

  lemma AccountedMore(got: seq<Ptr>, freed: seq<Ptr>, mem: Memory, at: Ptr, mem': Memory)
    requires Accounted(got, freed, mem) && at !in mem && mem'.Keys == mem.Keys + {at}
    ensures Accounted(got + [at], freed, mem')
  {
    assert multiset(mem.Keys + {at}) == multiset(mem.Keys) + multiset{at};
  }

  lemma AccountedSame(got: seq<Ptr>, freed: seq<Ptr>, mem: Memory, mem': Memory)
    requires Accounted(got, freed, mem) && mem'.Keys == mem.Keys
    ensures Accounted(got, freed, mem')
  {
  }

  // ---------- a fresh chain: node i lies at address i + 1 ----------

  function Addresses(n: nat): (r: set<Ptr>)
    ensures forall p :: p in r <==> 1 <= p <= n
  {
    if n == 0 then {} else Addresses(n - 1) + {n}
  }

  function AddressesInOrder(n: nat): (r: seq<Ptr>)
    ensures |r| == n && forall i | 0 <= i < n :: r[i] == i + 1
  {
    if n == 0 then [] else AddressesInOrder(n - 1) + [n]
  }

  function ChainMemory(n: nat): Memory {
    map p <- Addresses(n) :: Node(NULL, if p < n then p + 1 else NULL)
  }

  ghost function ChainLayout(n: nat): Layout {
    Layout(AddressesInOrder(n), map[], map[], map p <- Addresses(n) :: NodeHome(p - 1))
  }

  lemma ChainNodes(n: nat)
    ensures ChainLaid(ChainMemory(n), ChainLayout(n))
    ensures ChainMemory(n).Keys == ChainLayout(n).home.Keys
  {
    hide Homes;
  }

  lemma ChainHomes(n: nat)
    ensures Homes(ChainLayout(n))
  {
    hide ChainLaid;
  }

  lemma ChainIsLaid(n: nat, quantum: nat, qset: nat)
    ensures Laid(ChainMemory(n), ChainLayout(n), quantum, qset)
    ensures QuantaLaid(ChainMemory(n), ChainLayout(n), quantum, qset)
    ensures Cells(ChainMemory(n), ChainLayout(n), quantum, qset) == map[]
  {
    hide Homes, ChainLaid, ChainMemory, Quot, Rem;
    ChainNodes(n);
    ChainHomes(n);
  }

  // The layout in memory shows this file.
  ghost predicate Shows(mem: Memory, lay: Layout, f: File) {
    && Laid(mem, lay, f.quantum, f.qset)
    && f.chain == |lay.nodes| && f.arrays == lay.arrays.Keys && f.cells == Cells(mem, lay, f.quantum, f.qset)
  }

  lemma ShowsLaid(mem: Memory, lay: Layout, f: File)
    requires Shows(mem, lay, f)
    ensures Laid(mem, lay, f.quantum, f.qset) && f.chain == |lay.nodes| && f.arrays == lay.arrays.Keys
    ensures f.cells.Keys == lay.quanta.Keys
  {
    hide Homes, ChainLaid, SlotsLaid, Quot, Rem, Cells;
  }

  lemma ShowsCell(mem: Memory, lay: Layout, f: File, k: nat)
    requires Shows(mem, lay, f) && k in lay.quanta
    ensures k in f.cells && lay.quanta[k] in mem && mem[lay.quanta[k]] == Bytes(f.cells[k])
  {
    hide Homes, ChainLaid, SlotsLaid, Quot, Rem, Cells;
  }

  lemma ShowsWithSlots(mem: Memory, lay: Layout, f: File, item: nat, p: Ptr)
    requires Shows(mem, lay, f) && item < |lay.nodes| && item !in lay.arrays && p !in mem && p != NULL
    ensures lay.nodes[item] in mem && mem[lay.nodes[item]].Node?
    ensures Shows(AddSlots(mem, lay.nodes[item], p, f.qset), WithSlots(lay, item, p), f.(arrays := f.arrays + {item}))
  {
    hide Laid, Cells;
    LaidWithSlots(mem, lay, f.quantum, f.qset, item, p);
  }

  lemma ShowsWithQuantum(mem: Memory, lay: Layout, f: File, k: nat, p: Ptr, cell: seq<byte>)
    requires Shows(mem, lay, f)
    requires 0 < f.qset && Quot(k, f.qset) in lay.arrays && k !in lay.quanta
    requires p !in mem && p != NULL && |cell| == f.quantum
    ensures var slots := lay.arrays[Quot(k, f.qset)];
            slots in mem && mem[slots].Slots? && |mem[slots].ptrs| == f.qset
    ensures Shows(AddQuantum(mem, lay.arrays[Quot(k, f.qset)], Rem(k, f.qset), p, cell), WithQuantum(lay, k, p),
                  f.(cells := f.cells[k := cell]))
  {
    hide Laid, Cells, Quot, Rem;
    LaidWithQuantum(mem, lay, f.quantum, f.qset, k, p, cell);
  }

  // All that Valid asks for, when a quantum is added.
  lemma QuantumAdded(mem: Memory, lay: Layout, f: File, got: seq<Ptr>, freed: seq<Ptr>, k: nat, p: Ptr, cell: seq<byte>)
    requires Shows(mem, lay, f) && WellFormed(f) && Accounted(got, freed, mem) && Shaped(f)
    requires Quot(k, f.qset) in lay.arrays && k !in lay.quanta && p !in mem && p != NULL && |cell| == f.quantum
    ensures var slots := lay.arrays[Quot(k, f.qset)];
            && slots in mem && mem[slots].Slots? && |mem[slots].ptrs| == f.qset
            && var m := mem[p := Bytes(cell)];
               slots in m && m[slots] == mem[slots]
               && m[slots := Slots(m[slots].ptrs[Rem(k, f.qset) := p])]
                  == AddQuantum(mem, slots, Rem(k, f.qset), p, cell)
    ensures var mem' := AddQuantum(mem, lay.arrays[Quot(k, f.qset)], Rem(k, f.qset), p, cell);
            var lay' := WithQuantum(lay, k, p);
            var f' := f.(cells := f.cells[k := cell]);
            && Shows(mem', lay', f') && WellFormed(f') && Accounted(got + [p], freed, mem')
            && NodeAt(lay', 0) == NodeAt(lay, 0)
  {
    hide Shows, WellFormed, Quot, Rem, Accounted;
    ShowsLaid(mem, lay, f);
    ShowsWithQuantum(mem, lay, f, k, p, cell);
    GrowCells(f, k, cell);
    AccountedMore(got, freed, mem, p, AddQuantum(mem, lay.arrays[Quot(k, f.qset)], Rem(k, f.qset), p, cell));
  }

  // And when one is overwritten.
  lemma QuantumOverwritten(mem: Memory, lay: Layout, f: File, got: seq<Ptr>, freed: seq<Ptr>, k: nat, cell: seq<byte>)
    requires Shows(mem, lay, f) && WellFormed(f) && Accounted(got, freed, mem) && Shaped(f)
    requires k in lay.quanta && |cell| == f.quantum
    ensures lay.quanta[k] in mem
    ensures var mem', f' := mem[lay.quanta[k] := Bytes(cell)], f.(cells := f.cells[k := cell]);
            mem'.Keys == mem.Keys && Shows(mem', lay, f') && WellFormed(f') && Accounted(got, freed, mem')
  {
    hide Shows, WellFormed, Quot, Rem, Accounted;
    ShowsLaid(mem, lay, f);
    ShowsCell(mem, lay, f, k);
    CellLength(f, k);
    ShowsOverwrite(mem, lay, f, k, cell);
    GrowCells(f, k, cell);
    AccountedSame(got, freed, mem, mem[lay.quanta[k] := Bytes(cell)]);
  }

  lemma ShowsOverwrite(mem: Memory, lay: Layout, f: File, k: nat, cell: seq<byte>)
    requires Shows(mem, lay, f) && k in lay.quanta && |cell| == f.quantum
    ensures Shows(mem[lay.quanta[k] := Bytes(cell)], lay, f.(cells := f.cells[k := cell]))
  {
    hide Laid, Cells;
    LaidOverwrite(mem, lay, f.quantum, f.qset, k, cell);
  }

  // ---------- what the driver's pointers lead to ----------

  // The i-th pointer on the way from the head along `next`, or NULL past the end.
  function Walk(mem: Memory, head: Ptr, i: nat): Ptr {
    if i == 0 then head
    else
      var p := Walk(mem, head, i - 1);
      if p in mem && mem[p].Node? then mem[p].next else NULL
  }

  // The `data` pointer found there.
  function ArrayOn(mem: Memory, head: Ptr, i: nat): Ptr {
    var p := Walk(mem, head, i);
    if p in mem && mem[p].Node? then mem[p].data else NULL
  }

  // And the pointer in slot s of that array.
  function QuantumOn(mem: Memory, head: Ptr, i: nat, s: nat): Ptr {
    var p := ArrayOn(mem, head, i);
    if p in mem && mem[p].Slots? && s < |mem[p].ptrs| then mem[p].ptrs[s] else NULL
  }

  lemma {:induction false} WalkLaid(mem: Memory, lay: Layout, quantum: nat, qset: nat, i: nat)
    requires Laid(mem, lay, quantum, qset)
    ensures Walk(mem, NodeAt(lay, 0), i) == NodeAt(lay, i)
    decreases i
  {
    hide Laid;
    if i != 0 {
      WalkLaid(mem, lay, quantum, qset, i - 1);
      NextLaid(mem, lay, quantum, qset, i - 1);
    }
  }

  lemma NextLaid(mem: Memory, lay: Layout, quantum: nat, qset: nat, i: nat)
    requires Laid(mem, lay, quantum, qset)
    ensures var p := NodeAt(lay, i);
            if p in mem && mem[p].Node? then mem[p] == Node(SlotsAt(lay, i), NodeAt(lay, i + 1))
            else p == NULL && NodeAt(lay, i + 1) == NULL && SlotsAt(lay, i) == NULL
    ensures NodeAt(lay, i) == NULL <==> |lay.nodes| <= i
  {
    hide SlotsLaid, QuantaLaid, NoStray;
  }

  // Node i's array and what its slots hold, in terms of the layout.
  lemma PointersLaid(mem: Memory, lay: Layout, quantum: nat, qset: nat, i: nat, s: nat)
    requires Laid(mem, lay, quantum, qset)
    ensures Walk(mem, NodeAt(lay, 0), i) == NodeAt(lay, i)
    ensures ArrayOn(mem, NodeAt(lay, 0), i) == SlotsAt(lay, i)
    ensures var q := QuantumOn(mem, NodeAt(lay, 0), i, s);
            q == (if i in lay.arrays && s < qset then mem[lay.arrays[i]].ptrs[s] else NULL)
    ensures var q := QuantumOn(mem, NodeAt(lay, 0), i, s);
            q != NULL ==> Belongs(lay, qset, q, i, s)
  {
    hide Walk, QuantaLaid, NoStray, Belongs;
    WalkLaid(mem, lay, quantum, qset, i);
  }

  lemma {:induction false} AddressesOnce(n: nat)
    ensures multiset(AddressesInOrder(n)) == multiset(Addresses(n))
    decreases n
  {
    if n != 0 {
      AddressesOnce(n - 1);
      OneMore(AddressesInOrder(n - 1), Addresses(n - 1), n);
    }
  }

  lemma OneMore(s: seq<Ptr>, a: set<Ptr>, p: Ptr)
    requires multiset(s) == multiset(a) && p !in a
    ensures multiset(s + [p]) == multiset(a + {p})
  {
    assert multiset(a + {p}) == multiset(a) + multiset{p};
  }

  // All that Valid asks for, of a fresh chain.
  lemma ChainValid(n: nat, quantum: nat, qset: nat, counting: bool)
    requires 0 < quantum && 0 < qset
    ensures var f := File(quantum, qset, n, counting, 0, {}, map[]);
            Shows(ChainMemory(n), ChainLayout(n), f) && WellFormed(f)
    ensures Accounted(ChainLayout(n).nodes, [], ChainMemory(n))
    ensures NodeAt(ChainLayout(n), 0) == if 0 < n then 1 else NULL
    ensures |ChainLayout(n).nodes| == n
  {
    hide Laid, Cells;
    ChainIsLaid(n, quantum, qset);
    AddressesOnce(n);
    assert ChainMemory(n).Keys == Addresses(n);
  }

  // ---------- the device ----------

  class ScullDev {
    var data: Ptr
    var quantum: nat
    var qset: nat
    var size: nat
    var mem: Memory        // kernel memory, as far as kmalloc gave it to this device
    ghost var got: seq<Ptr>    // the addresses obtained from kmalloc so far, in order
    ghost var freed: seq<Ptr>  // the addresses given to kfree so far, in order
    ghost var lay: Layout

    const params: (nat, nat)  // the module parameters scull_quantum and scull_qset
    const counting: bool      // whether the loop of scull_follow counts, see ScullFile

    // What the memory holds, seen as a flat file.
    ghost var file: File

    ghost predicate Valid()
      reads this
    {
      && data == NodeAt(lay, 0)
      && file.quantum == quantum && file.qset == qset && file.size == size && file.counting == counting
      && Shows(mem, lay, file)
      && WellFormed(file)
      && Accounted(got, freed, mem)
    }

    // Every block the device owns is reached from `data` along its pointers, and has the length
    // the geometry gives it.
    lemma EveryBlockReached(p: Ptr)
      requires Valid() && p in mem
      ensures mem[p].Node? ==> exists i :: Walk(mem, data, i) == p
      ensures mem[p].Slots? ==> |mem[p].ptrs| == qset && exists i :: ArrayOn(mem, data, i) == p
      ensures mem[p].Bytes? ==> |mem[p].bytes| == quantum && exists i, s :: QuantumOn(mem, data, i, s) == p
    {
      hide Quot, Rem, Cells, Walk, ArrayOn, QuantumOn, WellFormed, Accounted;
      match lay.home[p]
      case NodeHome(i) =>
        PointersLaid(mem, lay, quantum, qset, i, 0);
      case SlotsHome(i) =>
        PointersLaid(mem, lay, quantum, qset, i, 0);
      case QuantumHome(k) =>
        PointersLaid(mem, lay, quantum, qset, Quot(k, qset), Rem(k, qset));
    }

    // It is reached along one way only: the chain ends, it has no cycle, and no pointer array
    // or quantum is pointed to from two places.
    lemma NothingShared(i: nat, s: nat, j: nat, t: nat)
      requires Valid()
      ensures Walk(mem, data, |lay.nodes|) == NULL
      ensures Walk(mem, data, i) != NULL ==> Walk(mem, data, i) in mem && mem[Walk(mem, data, i)].Node?
      ensures Walk(mem, data, i) == Walk(mem, data, j) != NULL ==> i == j
      ensures ArrayOn(mem, data, i) != NULL ==> ArrayOn(mem, data, i) in mem && mem[ArrayOn(mem, data, i)].Slots?
      ensures ArrayOn(mem, data, i) == ArrayOn(mem, data, j) != NULL ==> i == j
      ensures QuantumOn(mem, data, i, s) != NULL ==>
                QuantumOn(mem, data, i, s) in mem && mem[QuantumOn(mem, data, i, s)].Bytes?
      ensures QuantumOn(mem, data, i, s) == QuantumOn(mem, data, j, t) != NULL ==> i == j && s == t
    {
      hide Quot, Rem, Cells, Walk, ArrayOn, QuantumOn, WellFormed, Accounted, NoStray;
      OneHome(lay);
      HomesKnown(lay);
      PointersLaid(mem, lay, quantum, qset, i, s);
      PointersLaid(mem, lay, quantum, qset, j, t);
      PointersLaid(mem, lay, quantum, qset, |lay.nodes|, 0);
      if QuantumOn(mem, data, i, s) != NULL {
        NotStray(lay, QuantumOn(mem, data, i, s));
      }
    }

    // A device with a chain of n empty nodes.  The source never allocates a node.
    constructor (n: nat, quantum: nat, qset: nat, params: (nat, nat), counting: bool)
      requires 0 < quantum && 0 < qset
      ensures Valid()
      ensures file == File(quantum, qset, n, counting, 0, {}, map[])
      ensures this.params == params && freed == [] && |got| == n
    {
      hide ChainMemory, ChainLayout, Shows, Accounted, WellFormed, NodeAt;
      this.quantum, this.qset, this.size := quantum, qset, 0;
      this.params, this.counting := params, counting;
      this.mem := ChainMemory(n);
      this.got := ChainLayout(n).nodes;
      this.freed := [];
      this.lay := ChainLayout(n);
      this.data := if 0 < n then 1 else NULL;
      this.file := File(quantum, qset, n, counting, 0, {}, map[]);
      new;
      ChainValid(n, quantum, qset, counting);
    }

    // The driver's own static device: no geometry and no node until the first trim.
    constructor Static(params: (nat, nat), counting: bool)
      ensures Valid()
      ensures file == File(0, 0, 0, counting, 0, {}, map[])
      ensures this.params == params && freed == [] && got == []
    {
      this.quantum, this.qset, this.size := 0, 0, 0;
      this.params, this.counting := params, counting;
      this.mem, this.got, this.freed := map[], [], [];
      this.lay := Layout([], map[], map[], map[]);
      this.data := NULL;
      this.file := File(0, 0, 0, counting, 0, {}, map[]);
      new;
      Empty(file);
      assert mem.Keys == {};
    }

    // kfree takes allocated blocks only, and ignores NULL.
    method Kfree(p: Ptr)
      requires p == NULL || p in mem
      requires NULL !in mem
      modifies this`mem, this`freed
      ensures mem == old(mem) - {p}
      ensures Conserved(old(freed), old(mem), freed, mem)
    {
      if p != NULL {
        assert mem.Keys == (mem.Keys - {p}) + {p};
        mem := mem - {p};
        freed := freed + [p];
      }
    }

    // The source's list walk.  As written it never increments i.
    method Follow(item: nat) returns (dptr: Ptr)
      requires Valid()
      ensures var at := FollowIndex(counting, |lay.nodes|, item);
              dptr == if at.Some? then lay.nodes[at.value] else NULL
    {
      hide Laid, WellFormed, Shows, Accounted, SlotsAt;
      ShowsLaid(mem, lay, file);
      var i := 0;
      dptr := data;
      ghost var at: nat := 0;
      while dptr != NULL && i < item
        invariant at <= |lay.nodes| && dptr == NodeAt(lay, at)
        invariant if counting then i == at <= item else i == 0 && (at == 0 || 0 < item)
        decreases |lay.nodes| - at
      {
        NextLaid(mem, lay, quantum, qset, at);
        var next := mem[dptr].next;
        dptr := next;
        if counting {
          i := i + 1;
        }
        at := at + 1;
      }
      NextLaid(mem, lay, quantum, qset, at);
    }

    // The inner loop of scull_trim: every quantum of node j goes back to kfree.
    method FreeQuanta(dptr: Ptr, qset': nat, ghost m: Memory, ghost l: Layout, ghost j: nat, ghost f0: seq<Ptr>)
      requires Laid(m, l, quantum, qset') && j in l.arrays && j < |l.nodes| && dptr == l.nodes[j]
      requires l.arrays[j] != NULL && NULL !in mem
      requires mem == Remaining(m, l, qset', j, 0) && Conserved(f0, m, freed, mem)
      modifies this`mem, this`freed
      ensures mem == Remaining(m, l, qset', j, qset') && NULL !in mem && Conserved(f0, m, freed, mem)
    {
      hide Laid, Remaining, Conserved;
      var i := 0;
      while i < qset'
        invariant 0 <= i <= qset'
        invariant mem == Remaining(m, l, qset', j, i) && NULL !in mem
        invariant Conserved(f0, m, freed, mem)
        modifies this`mem, this`freed
      {
        FreeQuantum(m, l, quantum, qset', j, i);
        NodeStays(m, l, quantum, qset', j, i);
        ghost var f1, m1 := freed, mem;
        Kfree(mem[mem[dptr].data].ptrs[i]);
        ConservedTwice(f0, m, f1, m1, freed, mem);
        i := i + 1;
      }
    }

    // One round of the outer loop: node j with all that hangs on it.
    method FreeOne(dptr: Ptr, qset': nat, ghost m: Memory, ghost l: Layout, ghost j: nat, ghost f0: seq<Ptr>)
      returns (next: Ptr)
      requires Laid(m, l, quantum, qset') && j < |l.nodes| && dptr == l.nodes[j] && dptr != NULL && NULL !in mem
      requires mem == Remaining(m, l, qset', j, 0) && Conserved(f0, m, freed, mem)
      modifies this`mem, this`freed
      ensures next == NodeAt(l, j + 1)
      ensures mem == Remaining(m, l, qset', j + 1, 0) && NULL !in mem && Conserved(f0, m, freed, mem)
    {
      hide Laid, Remaining, Conserved;
      FreeNode(m, l, quantum, qset', j);
      NodeStays(m, l, quantum, qset', j, 0);
      ghost var rest := mem;
      if mem[dptr].data != NULL {
        FreeQuanta(dptr, qset', m, l, j, f0);
        NodeStays(m, l, quantum, qset', j, qset');
        rest := mem;
        ghost var f1, m1 := freed, mem;
        Kfree(mem[dptr].data);
        ConservedTwice(f0, m, f1, m1, freed, mem);
        ghost var m2 := mem;
        mem := mem[dptr := mem[dptr].(data := NULL)];
        SameBlocks(f0, m, freed, m2, mem);
      }
      assert mem - {dptr} == rest - {SlotsAt(l, j)} - {dptr};
      next := mem[dptr].next;
      ghost var f1, m1 := freed, mem;
      Kfree(dptr);
      ConservedTwice(f0, m, f1, m1, freed, mem);
    }

    // The loops of scull_trim: every quantum, pointer array and node goes back to kfree once.
    method FreeAll()
      requires Valid()
      modifies this`mem, this`freed
      ensures mem == map[]
      ensures Conserved(old(freed), old(mem), freed, mem)
    {
      hide Laid, WellFormed, Shows, Accounted, Remaining, Conserved;
      ShowsLaid(mem, lay, file);
      var dptr := data;
      ghost var m, l := mem, lay;
      ghost var j: nat := 0;
      NothingGone(m, l, quantum, qset);
      StillConserved(freed, m);
      ChainKnown(m, l, quantum, qset);
      while dptr != NULL
        invariant j <= |l.nodes| && dptr == NodeAt(l, j)
        invariant mem == Remaining(m, l, qset, j, 0) && NULL !in mem
        invariant Conserved(old(freed), m, freed, mem)
        decreases |l.nodes| - j
        modifies this`mem, this`freed
      {
        dptr := FreeOne(dptr, qset, m, l, j, old(freed));
        j := j + 1;
      }
      AllGone(m, l, quantum, qset);
    }

    // The end of scull_trim.  Only here does a device get a new geometry, and only once nothing
    // that the old one laid out is allocated.
    method Install()
      requires mem == map[] && Accounted(got, freed, mem) && file.counting == counting
      modifies this`data, this`quantum, this`qset, this`size, this`lay, this`file
      ensures Valid()
      ensures file == ScullFile.Trim(old(file), params.0, params.1)
      ensures quantum == params.0 && qset == params.1 && size == 0 && data == NULL
    {
      hide Shows, WellFormed, Accounted;
      size := 0;
      quantum := params.0;
      qset := params.1;
      data := NULL;
      lay := Layout([], map[], map[], map[]);
      file := ScullFile.Trim(file, quantum, qset);
      Empty(file);
      TrimWellFormed(old(file), params.0, params.1);
    }

    // scull_trim: frees everything, then installs the geometry.
    method Trim()
      requires Valid()
      modifies this`mem, this`freed, this`data, this`quantum, this`qset, this`size, this`lay, this`file
      ensures Valid()
      ensures file == ScullFile.Trim(old(file), params.0, params.1)
      ensures quantum == params.0 && qset == params.1 && size == 0 && data == NULL
      ensures mem == map[]
      ensures Conserved(old(freed), old(mem), freed, mem)
    {
      hide Shows, WellFormed, Conserved, Accounted;
      FreeAll();
      AccountedConserved(got, old(freed), old(mem), freed, mem);
      Install();
    }

    // scull_open trims the device when it is opened write-only.
    method Open(writeOnly: bool)
      requires Valid()
      modifies this`mem, this`freed, this`data, this`quantum, this`qset, this`size, this`lay, this`file
      ensures Valid()
      ensures file == if writeOnly then ScullFile.Trim(old(file), params.0, params.1) else old(file)
      ensures writeOnly ==> quantum == params.0 && qset == params.1 && size == 0 && data == NULL
      ensures Conserved(old(freed), old(mem), freed, mem)
      ensures if writeOnly then mem == map[] else mem == old(mem) && freed == old(freed)
    {
      if writeOnly {
        Trim();
      }
    }

    // How scull_read finds the quantum of a position: the arithmetic, the walk, the null checks.
    method Find(pos: nat) returns (q: Ptr, q_pos: nat)
      requires Valid() && 0 < quantum && 0 < qset
      ensures q_pos == Rem(pos, quantum)
      ensures q == NULL <==> Quot(pos, quantum) !in file.cells
      ensures q != NULL ==> q in mem && mem[q] == Bytes(file.cells[Quot(pos, quantum)])
    {
      hide Split, Join, Shows, WellFormed, Quot, Rem, Accounted;
      var p := Split(quantum, qset, pos);
      q_pos := p.offset;
      JoinSplit(quantum, qset, pos);
      ShowsLaid(mem, lay, file);
      var dptr := Follow(p.item);
      Located(Quot(pos, quantum));
      if dptr == NULL || mem[dptr].data == NULL {
        return NULL, q_pos;
      }
      q := mem[mem[dptr].data].ptrs[p.slot];
      if q != NULL {
        ShowsCell(mem, lay, file, Quot(pos, quantum));
      }
    }

    // What hangs at the node and slot of the k-th quantum.
    lemma Located(k: nat)
      requires Valid() && 0 < qset
      ensures var item := Quot(k, qset);
              && (k in lay.quanta ==> item in lay.arrays && lay.quanta[k] != NULL)
              && (FollowIndex(counting, |lay.nodes|, item).Some? <==> item < Reach(file))
              && (item < |lay.nodes| ==>
                    && lay.nodes[item] != NULL && lay.nodes[item] in mem && mem[lay.nodes[item]].Node?
                    && mem[lay.nodes[item]].data == SlotsAt(lay, item))
              && (SlotsAt(lay, item) != NULL ==>
                    && SlotsAt(lay, item) in mem && mem[SlotsAt(lay, item)].Slots?
                    && |mem[SlotsAt(lay, item)].ptrs| == qset
                    && mem[SlotsAt(lay, item)].ptrs[Rem(k, qset)] == if k in lay.quanta then lay.quanta[k] else NULL)
              && (item in lay.arrays ==> item < Reach(file) && lay.arrays[item] != NULL)
    {
      hide Shows, NoStray, Quot, Rem;
      ShowsLaid(mem, lay, file);
      var item := Quot(k, qset);
      assert item in lay.arrays ==> item in file.arrays;
      HomesKnown(lay);
      if item in lay.arrays {
        NullSlot(mem, lay, quantum, qset, k);
      }
    }

    method ReadAt(pos: nat, count: nat, env: ReadEnv) returns (pos': nat, ret: Ret, out: seq<byte>)
      requires Valid()
      ensures Delivered(pos', ret, out) == Read(file, pos, count, env)
    {
      hide Shows, Quot, Rem, Accounted, Clip;
      pos', ret, out := pos, Ok(0), [];
      if !env.lock {
        return pos, Err(ERESTARTSYS), [];
      }
      if pos >= size {
        return;
      }
      var count' := if pos + count > size then size - pos else count;
      var q, q_pos := Find(pos);
      if q == NULL {
        return;
      }
      ClipIs(quantum, pos, count');
      if count' > quantum - q_pos {
        count' := quantum - q_pos;
      }
      var d := CopyOut(mem[q].bytes, pos, q_pos, count', env.fault);
      return d.pos, d.ret, d.out;
    }

    // The node at dptr has no pointer array: allocate one and clear it.
    method NewSlots(dptr: Ptr, at: Ptr, ghost item: nat)
      requires Valid() && 0 < quantum && 0 < qset
      requires item < Reach(file) && item !in lay.arrays && item < |lay.nodes| && dptr == lay.nodes[item]
      requires at !in mem && at != NULL
      modifies this`mem, this`got, this`lay, this`file
      ensures Valid()
      ensures mem.Keys == old(mem).Keys + {at} && got == old(got) + [at] && lay == WithSlots(old(lay), item, at)
      ensures file == old(file).(arrays := old(file).arrays + {item})
    {
      hide Shows, WellFormed, NoPointers, Accounted;
      ShowsWithSlots(mem, lay, file, item, at);
      GrowArrays(file, item);
      mem := mem[at := Slots(NoPointers(qset))];
      mem := mem[dptr := mem[dptr].(data := at)];
      lay := WithSlots(lay, item, at);
      file := file.(arrays := file.arrays + {item});
      AccountedMore(got, freed, old(mem), at, mem);
      got := got + [at];
    }

    // The slot is empty: allocate a quantum.  Its contents are whatever the allocator left there.
    method NewQuantum(slots: Ptr, s: nat, at: Ptr, junk: nat -> byte, ghost k: nat)
      requires Valid() && 0 < quantum && 0 < qset
      requires Quot(k, qset) in lay.arrays && slots == lay.arrays[Quot(k, qset)] && s == Rem(k, qset)
      requires k !in lay.quanta && at !in mem && at != NULL
      modifies this`mem, this`got, this`lay, this`file
      ensures Valid()
      ensures mem.Keys == old(mem).Keys + {at} && got == old(got) + [at] && lay == WithQuantum(old(lay), k, at)
      ensures file == old(file).(cells := old(file).cells[k := Junk(quantum, junk)])
    {
      hide Shows, WellFormed, Quot, Rem, Junk, Accounted, AddQuantum, WithQuantum, NodeAt;
      var cell := Junk(quantum, junk);
      QuantumAdded(mem, lay, file, got, freed, k, at, cell);
      ghost var mem' := AddQuantum(mem, slots, s, at, cell);
      mem := mem[at := Bytes(cell)];
      mem := mem[slots := Slots(mem[slots].ptrs[s := at])];
      assert mem == mem';
      got := got + [at];
      lay := WithQuantum(lay, k, at);
      file := file.(cells := file.cells[k := cell]);
    }

    // copy_from_user into the quantum of a position, as far as it gets.
    method CopyInto(q: Ptr, off: nat, bytes: seq<byte>, ghost pos: nat)
      requires Valid() && 0 < quantum && 0 < qset
      requires Quot(pos, quantum) in lay.quanta && q == lay.quanta[Quot(pos, quantum)]
      requires off == Rem(pos, quantum) && off + |bytes| <= quantum
      modifies this`mem, this`file
      ensures Valid() && mem.Keys == old(mem).Keys
      ensures var k, f := Quot(pos, quantum), old(file);
              && Shaped(f) && k in f.cells && |f.cells[k]| == quantum
              && file == WithBytes(f, pos, bytes)
    {
      hide Shows, WellFormed, Quot, Rem, Accounted, NodeAt;
      ghost var k := Quot(pos, quantum);
      ShowsCell(mem, lay, file, k);
      CellLength(file, k);
      var cell := Overlay(mem[q].bytes, off, bytes);
      QuantumOverwritten(mem, lay, file, got, freed, k, cell);
      mem := mem[q := Bytes(cell)];
      file := file.(cells := file.cells[k := cell]);
    }

    // What the allocator's choices and the copy mean for the flat view.
    static ghost function Env(lock: bool, arrayAt: Ptr, quantumAt: Ptr, junk: nat -> byte, copy: CopyIn): WriteEnv {
      WriteEnv(lock, arrayAt != NULL, if quantumAt != NULL then Some(junk) else None, copy)
    }

    // The blocks that a call took from kmalloc, to tell by what the file gained.
    static ghost function Taken(f: File, f': File, arrayAt: Ptr, quantumAt: Ptr): seq<Ptr> {
      (if f'.arrays == f.arrays then [] else [arrayAt]) + if f'.cells.Keys == f.cells.Keys then [] else [quantumAt]
    }

    // The walk of scull_write, and the pointer array if the node has none; NULL on failure.
    method ReachSlots(item: nat, at: Ptr, ghost k: nat) returns (slots: Ptr)
      requires Valid() && 0 < quantum && 0 < qset && item == Quot(k, qset) && at !in mem
      modifies this`mem, this`got, this`lay, this`file
      ensures Valid()
      ensures var f := old(file);
              if item < Reach(f) && (item in f.arrays || at != NULL) then
                && slots != NULL && item in lay.arrays && slots == lay.arrays[item]
                && file == f.(arrays := f.arrays + {item})
              else
                slots == NULL && file == f
      ensures file.arrays != old(file).arrays ==> at != NULL
      ensures mem.Keys == old(mem).Keys + if file.arrays == old(file).arrays then {} else {at}
      ensures got == old(got) + if file.arrays == old(file).arrays then [] else [at]
    {
      hide Shows, WellFormed, Quot, Rem, Accounted;
      ShowsLaid(mem, lay, file);
      var dptr := Follow(item);
      Located(k);
      if dptr == NULL {
        return NULL;
      }
      if mem[dptr].data == NULL {
        if at == NULL {
          return NULL;
        }
        NewSlots(dptr, at, item);
        Located(k);
      } else {
        assert file.arrays == file.arrays + {item};
      }
      slots := mem[dptr].data;
    }

    // The slot's quantum, allocated if there is none; NULL on failure.
    method ReachQuantum(slots: Ptr, s: nat, at: Ptr, junk: nat -> byte, ghost k: nat) returns (q: Ptr)
      requires Valid() && 0 < quantum && 0 < qset && at !in mem
      requires Quot(k, qset) in lay.arrays && slots == lay.arrays[Quot(k, qset)] && s == Rem(k, qset)
      modifies this`mem, this`got, this`lay, this`file
      ensures Valid()
      ensures var f := old(file);
              if k in f.cells || at != NULL then
                && q != NULL && k in lay.quanta && q == lay.quanta[k]
                && file == if k in f.cells then f else f.(cells := f.cells[k := Junk(quantum, junk)])
              else
                q == NULL && file == f
      ensures mem.Keys == old(mem).Keys + if file.cells.Keys == old(file).cells.Keys then {} else {at}
      ensures got == old(got) + if file.cells.Keys == old(file).cells.Keys then [] else [at]
    {
      hide Shows, WellFormed, Quot, Rem, Junk, Accounted;
      ShowsLaid(mem, lay, file);
      Located(k);
      if mem[slots].ptrs[s] == NULL {
        if at == NULL {
          return NULL;
        }
        NewQuantum(slots, s, at, junk, k);
        return at;
      }
      q := mem[slots].ptrs[s];
    }

    // Both together, for the quantum that holds a position.
    method Prepare(pos: nat, arrayAt: Ptr, quantumAt: Ptr, junk: nat -> byte, ghost env: WriteEnv)
      returns (q: Ptr, q_pos: nat)
      requires Valid() && 0 < quantum && 0 < qset
      requires arrayAt !in mem && quantumAt !in mem && (arrayAt == quantumAt ==> arrayAt == NULL)
      requires env == Env(env.lock, arrayAt, quantumAt, junk, env.copy)
      modifies this`mem, this`got, this`lay, this`file
      ensures Valid()
      ensures q_pos == Rem(pos, quantum)
      ensures q == NULL <==> !(HasSlots(old(file), pos, env) && HasBlock(old(file), pos, env))
      ensures q != NULL ==>
                && Quot(pos, quantum) in lay.quanta && q == lay.quanta[Quot(pos, quantum)]
                && file == WithBlock(WithArray(old(file), pos), pos, env.quantumMem)
      ensures q == NULL ==>
                file == if HasSlots(old(file), pos, env) then WithArray(old(file), pos) else old(file)
      ensures mem.Keys == old(mem).Keys + (if file.arrays == old(file).arrays then {} else {arrayAt})
                                        + (if file.cells.Keys == old(file).cells.Keys then {} else {quantumAt})
      ensures got == old(got) + Taken(old(file), file, arrayAt, quantumAt)
    {
      hide Split, Join, Shows, WellFormed, Quot, Rem, Junk, Accounted;
      var p := Split(quantum, qset, pos);
      JoinSplit(quantum, qset, pos);
      q_pos := p.offset;
      ghost var k := Quot(pos, quantum);
      var slots := ReachSlots(p.item, arrayAt, k);
      if slots == NULL {
        return NULL, q_pos;
      }
      q := ReachQuantum(slots, p.slot, quantumAt, junk, k);
    }

    // The device grows when something was written past its size.
    method Extend(end: nat)
      requires Valid() && WellFormed(Extended(file, end))
      modifies this`size, this`file
      ensures Valid()
      ensures file == Extended(old(file), end)
    {
      hide WellFormed, Quot, Rem, Laid, Cells, Accounted;
      if size < end {
        size := end;
      }
      file := Extended(file, end);
    }

    // The copy of scull_write and what follows it, given what it must come to.
    method Store(q: Ptr, q_pos: nat, pos: nat, buf: seq<byte>, copy: CopyIn, ghost w: Written)
      returns (pos': nat, ret: Ret)
      requires Valid() && 0 < quantum && 0 < qset
      requires Quot(pos, quantum) in lay.quanta && q == lay.quanta[Quot(pos, quantum)] && q_pos == Rem(pos, quantum)
      requires Quot(pos, quantum) in file.cells && |file.cells[Quot(pos, quantum)]| == quantum
      requires var n := Clip(quantum, pos, |buf|);
               w == StoredAs(WithBytes(file, pos, Landing(buf, n, copy)), pos, n, copy)
      requires WellFormed(w.file)
      modifies this`mem, this`size, this`file
      ensures Valid() && mem.Keys == old(mem).Keys
      ensures Written(file, pos', ret) == w
      ensures file.arrays == old(file).arrays && file.cells.Keys == old(file).cells.Keys
    {
      hide Accounted, Shows, WellFormed, Clip, NodeAt, Quot, Rem, WithBytes, Extended, Landing;
      var count := if |buf| > quantum - q_pos then quantum - q_pos else |buf|;
      ClipIs(quantum, pos, |buf|);
      CopyInto(q, q_pos, Landing(buf, count, copy), pos);
      if copy.Fault? {
        return pos, Err(EFAULT);
      }
      Extend(pos + count);
      return pos + count, Ok(count);
    }

    method WriteAt(pos: nat, buf: seq<byte>, lock: bool, arrayAt: Ptr, quantumAt: Ptr, junk: nat -> byte, copy: CopyIn)
      returns (pos': nat, ret: Ret)
      requires Valid() && (lock ==> 0 < quantum && 0 < qset)
      requires arrayAt !in mem && quantumAt !in mem && (arrayAt == quantumAt ==> arrayAt == NULL)
      modifies this`mem, this`got, this`lay, this`size, this`file
      ensures Valid()
      ensures Written(file, pos', ret) == Write(old(file), pos, buf, Env(lock, arrayAt, quantumAt, junk, copy))
      ensures mem.Keys == old(mem).Keys + (if file.arrays == old(file).arrays then {} else {arrayAt})
                                        + (if file.cells.Keys == old(file).cells.Keys then {} else {quantumAt})
      ensures got == old(got) + Taken(old(file), file, arrayAt, quantumAt)
    {
      hide Accounted, Shows, WellFormed, Clip, NodeAt, Quot, Rem, Write,
        HasSlots, HasBlock, WithArray, WithBlock, WithBytes, StoredAs, Landing;
      ghost var env := Env(lock, arrayAt, quantumAt, junk, copy);
      if !lock {
        LockedOut(file, pos, buf, env);
        return pos, Err(ERESTARTSYS);
      }
      WriteInSteps(file, pos, buf, env);
      WriteKeeps(file, pos, buf, env);
      pos', ret := pos, Err(EINVAL);
      ghost var w := Write(file, pos, buf, env);
      var q, q_pos := Prepare(pos, arrayAt, quantumAt, junk, env);
      if q == NULL {
        return;
      }
      pos', ret := Store(q, q_pos, pos, buf, copy, w);
    }
  }

  lemma Empty(f: File)
    requires f.chain == 0 && f.arrays == {} && f.cells == map[]
    ensures Shows(map[], Layout([], map[], map[], map[]), f)
  {
  }
}
