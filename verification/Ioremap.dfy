/** __ioremap: 32-bit page arithmetic, the direct KSEG1 window, and mappings through the page table. */
module Ioremap {
  import opened Kernel

  const PAGE: nat := 0x1000
  const LOW512: nat := 0x2000_0000        // the first 512 MB
  const KSEG0: nat := 0x8000_0000         // PAGE_OFFSET, cached
  const KSEG1: nat := 0xa000_0000         // uncached
  const KSEG2: nat := 0xc000_0000         // from here on addresses go through the page table
  const CACHE_UNCACHED: nat := 1024       // 2 << 9

  // Unsigned 32-bit wrap-around.
  function Wrap(x: int): (r: nat)
    ensures r < U32
  {
    x % U32
  }

  // ---------- the macros ----------

  predicate IsLow512(a: nat) {
    a < LOW512
  }

  // The low 29 bits of the address, with the window's base in the bits above.
  function CKseg1Addr(a: nat): nat {
    a % LOW512 + KSEG1
  }

  function VirtToPhys(v: nat): nat {
    Wrap(v - KSEG0)
  }

  function PhysToVirt(p: nat): nat {
    Wrap(p + KSEG0)
  }

  function PfnDown(a: nat): nat {
    a / PAGE
  }

  // x & PAGE_MASK
  function PageMask(x: nat): nat {
    x - x % PAGE
  }

  function PageAlign(x: nat): nat {
    PageMask(Wrap(x + (PAGE - 1)))
  }

  // ---------- what addresses mean ----------

  // The translation of a kernel address by the hardware.
  function Translate(table: map<nat, nat>, v: nat): Option<nat> {
    if KSEG0 <= v < KSEG1 then Some(v - KSEG0)
    else if KSEG1 <= v < KSEG2 then Some(v - KSEG1)
    else if v / PAGE in table then Some(table[v / PAGE] * PAGE + v % PAGE)
    else None
  }

  // Consecutive pages from virtual page vpn to frame pfn on.
  function Mapped(table: map<nat, nat>, vpn: nat, pfn: nat, n: nat): (r: map<nat, nat>)
    ensures forall v: nat :: v in r <==> v in table || vpn <= v < vpn + n
    ensures forall v: nat | v in r :: r[v] == if vpn <= v < vpn + n then pfn + (v - vpn) else table[v]
  {
    if n == 0 then table else Mapped(table, vpn, pfn, n - 1)[vpn + n - 1 := pfn + n - 1]
  }

  // ---------- requests ----------

  // A request that the source does not turn away: not empty, not wrapping around.
  predicate Sound(phys: nat, size: nat) {
    0 < size && phys + size <= U32
  }

  // A request that the direct window answers: it lies in the first 512 MB, uncached.
  predicate Direct(phys: nat, size: nat, flags: nat) {
    phys + size <= LOW512 && flags == CACHE_UNCACHED
  }

  // The pages that cover a request, counted without wrap-around.
  function FirstPage(phys: nat): nat {
    phys / PAGE
  }

  function PageCount(phys: nat, size: nat): nat
    requires 0 < size
  {
    CoverNotEmpty(phys, size);
    (phys + size - 1) / PAGE - phys / PAGE + 1
  }

  lemma CoverNotEmpty(phys: nat, size: nat)
    requires 0 < size
    ensures phys / PAGE <= (phys + size - 1) / PAGE
  {
  }

  // The cover is the whole 32-bit space.
  predicate WholeSpace(phys: nat, size: nat) {
    phys < PAGE && phys + size > U32 - PAGE
  }

  // The source's arithmetic yields the least whole-page cover, even where rounding the end up
  // wraps to zero; only for the whole space it yields nothing.
  lemma CoverSize(phys: nat, size: nat)
    requires Sound(phys, size)
    ensures var masked := PageMask(phys);
            var mapped := Wrap(PageAlign(Wrap(phys + size)) - masked);
            && masked == FirstPage(phys) * PAGE
            && mapped == if WholeSpace(phys, size) then 0 else PageCount(phys, size) * PAGE
  {
    hide PageAlign;
    AlignEnd(phys + size);
  }

  // Rounding the end of a request up to a whole page, where it may wrap to zero.
  lemma AlignEnd(end: nat)
    requires 0 < end <= U32
    ensures PageAlign(Wrap(end)) == if end > U32 - PAGE then 0 else ((end - 1) / PAGE + 1) * PAGE
  {
    if end == U32 {
      assert Wrap(end) == 0;
    } else {
      assert Wrap(end) == end;
    }
  }

  // It is the least cover: it contains the request, and no fewer pages do.
  lemma LeastCover(phys: nat, size: nat, first: nat, n: nat)
    requires 0 < size
    ensures FirstPage(phys) * PAGE <= phys && phys + size <= (FirstPage(phys) + PageCount(phys, size)) * PAGE
    ensures first * PAGE <= phys && phys + size <= (first + n) * PAGE ==>
              first <= FirstPage(phys) && FirstPage(phys) + PageCount(phys, size) <= first + n
  {
  }

  // The check computes frames by way of virtual addresses, with wrap-around in between.
  lemma ThereAndBack(phys: nat, size: nat)
    requires Sound(phys, size)
    ensures VirtToPhys(PhysToVirt(phys)) == phys
    ensures VirtToPhys(Wrap(PhysToVirt(phys) + (size - 1))) == phys + size - 1
  {
    hide Wrap;
    WrapTwice(phys, KSEG0);
    WrapTwice(phys + size - 1, KSEG0);
    WrapSum(phys + KSEG0, size - 1);
  }

  lemma WrapSum(x: nat, k: nat)
    ensures Wrap(Wrap(x) + k) == Wrap(x + k)
  {
  }

  lemma WrapSmall(x: nat)
    requires x < U32
    ensures Wrap(x) == x
  {
  }

  lemma WrapTwice(x: nat, k: nat)
    requires x < U32 && k < U32
    ensures Wrap(Wrap(x + k) - k) == x
  {
  }

  // ---------- the environment ----------

  // The outside world during one call: where get_vm_area finds room, and after how many pages
  // remap_area_pages fails, if it does.
  datatype Env = Env(area: Option<nat>, remapFails: Option<nat>)

  // An area that get_vm_area may hand out: whole pages of the mapped segment that nothing uses.
  predicate Free(table: map<nat, nat>, addr: nat, size: nat) {
    && addr % PAGE == 0 && KSEG2 <= addr < U32 && addr + size <= U32
    && forall v | addr / PAGE <= v < (addr + size) / PAGE :: v !in table
  }

  // ---------- what a call answers, in plain numbers ----------

  datatype Outcome = Outcome(addr: Option<nat>, table: map<nat, nat>, areas: map<nat, nat>)

  // The pages that a call maps: the cover, or none where the cover is the whole space.
  function Pages(phys: nat, size: nat): nat
    requires 0 < size
  {
    if WholeSpace(phys, size) then 0 else PageCount(phys, size)
  }

  predicate HasRoom(table: map<nat, nat>, areas: map<nat, nat>, addr: nat, size: nat) {
    addr !in areas && Free(table, addr, size)
  }

  function Room(table: map<nat, nat>, areas: map<nat, nat>, size: nat, offer: Option<nat>): (addr: Option<nat>)
    ensures addr.Some? ==> offer == addr && HasRoom(table, areas, addr.value, size)
  {
    if offer.Some? && HasRoom(table, areas, offer.value, size) then offer else None
  }

  // May the request go through the page table?  RAM below high memory must be reserved.
  ghost predicate Allowed(reserved: set<nat>, highMemory: nat, phys: nat, size: nat)
    requires 0 < size
  {
    phys < VirtToPhys(highMemory) ==>
      forall f | FirstPage(phys) <= f < FirstPage(phys) + PageCount(phys, size) :: f in reserved
  }

  ghost function Answer(reserved: set<nat>, highMemory: nat, table: map<nat, nat>, areas: map<nat, nat>,
                        phys: nat, size: nat, flags: nat, env: Env): Outcome
  {
    if !Sound(phys, size) then
      Outcome(None, table, areas)
    else if Direct(phys, size, flags) then
      Outcome(Some(phys + KSEG1), table, areas)
    else if !Allowed(reserved, highMemory, phys, size) then
      Outcome(None, table, areas)
    else
      PageAnswer(table, areas, phys, size, env)
  }

  // The answer by way of the page table.
  ghost function PageAnswer(table: map<nat, nat>, areas: map<nat, nat>, phys: nat, size: nat, env: Env): Outcome
    requires 0 < size
  {
    var n := Pages(phys, size);
    match Room(table, areas, n * PAGE, env.area)
    case None => Outcome(None, table, areas)
    case Some(addr) =>
      if env.remapFails.Some? && env.remapFails.value < n then
        Outcome(None, table, areas)
      else
        Outcome(Some(Wrap(addr + phys % PAGE)), Mapped(table, addr / PAGE, FirstPage(phys), n), areas[addr := n * PAGE])
  }

  // Mapped page by page.
  lemma MappedSteps(table: map<nat, nat>, vpn: nat, pfn: nat)
    ensures Mapped(table, vpn, pfn, 0) == table
    ensures forall i: nat :: Mapped(table, vpn, pfn, i + 1) == Mapped(table, vpn, pfn, i)[vpn + i := pfn + i]
  {
  }

  // Taking a partly mapped area out of the table leaves the table as it was.
  lemma UnmapRestores(table: map<nat, nat>, addr: nat, pfn: nat, k: nat, size: nat)
    requires Free(table, addr, size) && size % PAGE == 0 && k <= size / PAGE
    ensures var part := Mapped(table, addr / PAGE, pfn, k);
            (map v | v in part && !(addr / PAGE <= v < (addr + size) / PAGE) :: part[v]) == table
  {
    hide Mapped;
  }

  // ---------- the memory manager ----------

  class Mmu {
    var table: map<nat, nat>       // the page table: virtual page to frame
    var areas: map<nat, nat>       // the areas in use: address to size
    const reserved: set<nat>       // the frames whose page is reserved
    const highMemory: nat          // virtual address of the end of directly mapped memory

    constructor (reserved: set<nat>, highMemory: nat)
      requires highMemory < U32
      ensures this.reserved == reserved && this.highMemory == highMemory && table == map[] && areas == map[]
    {
      this.reserved, this.highMemory := reserved, highMemory;
      table, areas := map[], map[];
    }

    // The check against remapping RAM: it visits the frames from the first to the last in turn
    // and stops at the first that is not reserved.
    method RamCheck(phys: nat, size: nat) returns (ok: bool, ghost visited: seq<nat>)
      requires Sound(phys, size)
      ensures ok <==> forall f | FirstPage(phys) <= f < FirstPage(phys) + PageCount(phys, size) :: f in reserved
      ensures |visited| <= PageCount(phys, size)
      ensures forall i | 0 <= i < |visited| :: visited[i] == FirstPage(phys) + i
      ensures ok ==> |visited| == PageCount(phys, size)
    {
      hide Wrap, VirtToPhys, PhysToVirt;
      ThereAndBack(phys, size);
      var tAddr := PhysToVirt(phys);
      var tEnd := Wrap(tAddr + (size - 1));
      var page := PfnDown(VirtToPhys(tAddr));
      var last := PfnDown(VirtToPhys(tEnd));
      assert page == FirstPage(phys) && last == FirstPage(phys) + PageCount(phys, size) - 1;
      visited := [];
      while page <= last
        invariant FirstPage(phys) <= page <= FirstPage(phys) + PageCount(phys, size)
        invariant |visited| == page - FirstPage(phys)
        invariant forall i | 0 <= i < |visited| :: visited[i] == FirstPage(phys) + i
        invariant forall f | FirstPage(phys) <= f < page :: f in reserved
      {
        visited := visited + [page];
        if page !in reserved {
          return false, visited;
        }
        page := page + 1;
      }
      return true, visited;
    }

    // remap_area_pages: page by page, and it may give up on the way.
    method RemapAreaPages(addr: nat, phys: nat, size: nat, fails: Option<nat>) returns (failed: bool)
      requires addr % PAGE == 0 && phys % PAGE == 0 && size % PAGE == 0
      modifies this`table
      ensures failed <==> fails.Some? && fails.value < size / PAGE
      ensures table == Mapped(old(table), addr / PAGE, phys / PAGE, if failed then fails.value else size / PAGE)
    {
      hide Mapped;
      var vpn, pfn, n := addr / PAGE, phys / PAGE, size / PAGE;
      var i := 0;
      MappedSteps(table, vpn, pfn);
      while i < n
        invariant 0 <= i <= n && (fails.Some? ==> i <= fails.value)
        invariant table == Mapped(old(table), vpn, pfn, i)
      {
        if fails == Some(i) {
          return true;
        }
        table := table[vpn + i := pfn + i];
        i := i + 1;
      }
      return false;
    }

    // vunmap: the area's pages leave the table, and the area is free again.
    method Vunmap(addr: nat)
      requires addr in areas && addr % PAGE == 0 && areas[addr] % PAGE == 0
      modifies this`table, this`areas
      ensures areas == old(areas) - {addr}
      ensures table == map v | v in old(table) && !(addr / PAGE <= v < (addr + old(areas)[addr]) / PAGE)
                         :: old(table)[v]
    {
      var size := areas[addr];
      table := map v | v in table && !(addr / PAGE <= v < (addr + size) / PAGE) :: table[v];
      areas := areas - {addr};
    }

    // get_vm_area: the room that the environment offers, if it is room at all.
    method GetVmArea(size: nat, offer: Option<nat>) returns (addr: Option<nat>)
      modifies this`areas
      ensures addr == Room(old(table), old(areas), size, offer)
      ensures areas == if addr.Some? then old(areas)[addr.value := size] else old(areas)
    {
      addr := Room(table, areas, size, offer);
      if addr.Some? {
        areas := areas[addr.value := size];
      }
    }

    // The last part of __ioremap: round to pages, find an area, fill the page table.
    method MapPages(phys: nat, size: nat, env: Env) returns (v: Option<nat>)
      requires Sound(phys, size)
      modifies this
      ensures Outcome(v, table, areas) == PageAnswer(old(table), old(areas), phys, size, env)
    {
      hide Mapped, PageAlign, WholeSpace, PageCount;
      var offset := phys % PAGE;
      CoverSize(phys, size);
      var physPage := PageMask(phys);
      var size' := Wrap(PageAlign(Wrap(Wrap(phys + size - 1) + 1)) - physPage);
      assert size' == Pages(phys, size) * PAGE && physPage / PAGE == FirstPage(phys);
      var area := GetVmArea(size', env.area);
      if area.None? {
        return None;
      }
      var addr := area.value;
      var failed := RemapAreaPages(addr, physPage, size', env.remapFails);
      if failed {
        UnmapRestores(old(table), addr, FirstPage(phys), env.remapFails.value, size');
        Vunmap(addr);
        assert areas == old(areas);
        return None;
      }
      return Some(Wrap(offset + addr));
    }

    method Ioremap(phys: nat, size: nat, flags: nat, env: Env) returns (v: Option<nat>)
      requires phys < U32 && size < U32
      modifies this
      ensures Outcome(v, table, areas) == Answer(reserved, highMemory, old(table), old(areas), phys, size, flags, env)
    {
      hide Mapped, VirtToPhys, PageAnswer;
      var lastAddr := Wrap(phys + size - 1);
      if size == 0 || lastAddr < phys {
        return None;
      }
      assert Sound(phys, size) && lastAddr == phys + size - 1;
      if IsLow512(phys) && IsLow512(lastAddr) && flags == CACHE_UNCACHED {
        return Some(CKseg1Addr(phys));
      }
      if phys < VirtToPhys(highMemory) {
        var ok, _ := RamCheck(phys, size);
        if !ok {
          return None;
        }
      }
      v := MapPages(phys, size, env);
    }

    // __ioremap_mode: with constant arguments it looks for the direct window by itself first.
    method IoremapMode(offset: nat, size: nat, flags: nat, constant: bool, env: Env) returns (v: Option<nat>)
      requires offset < U32 && size < U32
      modifies this
      ensures Outcome(v, table, areas) == Answer(reserved, highMemory, old(table), old(areas), offset, size, flags, env)
    {
      if constant {
        var lastAddr := Wrap(offset + size - 1);
        if size == 0 || lastAddr < offset {
          return None;
        }
        if IsLow512(offset) && IsLow512(lastAddr) && flags == CACHE_UNCACHED {
          return Some(CKseg1Addr(offset));
        }
      }
      v := Ioremap(offset, size, flags, env);
    }
  }

  // ---------- when a request is granted, and along which path ----------

  // The pages of the cover, or none for the whole space.
  function CoverPages(phys: nat, size: nat): int {
    if phys / 4096 == 0 && (phys + size - 1) / 4096 == 0xfffff then 0
    else (phys + size - 1) / 4096 - phys / 4096 + 1
  }

  // Every frame of the cover is reserved, or the request lies at or above high memory.
  ghost predicate MayRemap(reserved: set<nat>, highMemory: nat, phys: nat, size: nat) {
    || (highMemory - 0x8000_0000) % 0x1_0000_0000 <= phys
    || forall f: nat | phys / 4096 <= f <= (phys + size - 1) / 4096 :: f in reserved
  }

  // The area is on offer, and it is whole pages from 0xc0000000 on that nobody uses.
  ghost predicate Offered(table: map<nat, nat>, areas: map<nat, nat>, area: Option<nat>, pages: int) {
    && area.Some? && area.value !in areas && area.value % 4096 == 0
    && 0xc000_0000 <= area.value < 0x1_0000_0000 && area.value + pages * 4096 <= 0x1_0000_0000
    && forall v: nat | area.value / 4096 <= v < area.value / 4096 + pages :: v !in table
  }

  // A request that is empty or wraps around is refused.  One that lies in the first 512 MB and is
  // uncached gets its address in the uncached window, whatever else holds, and nothing is mapped.
  lemma DirectExactly(reserved: set<nat>, highMemory: nat, table: map<nat, nat>, areas: map<nat, nat>,
                      phys: nat, size: nat, flags: nat, env: Env)
    ensures var o := Answer(reserved, highMemory, table, areas, phys, size, flags, env);
            && (size == 0 || phys + size > 0x1_0000_0000 ==> o == Outcome(None, table, areas))
            && (0 < size && phys + size <= 0x2000_0000 && flags == 1024 ==>
                  o == Outcome(Some(phys + 0xa000_0000), table, areas))
  {
  }

  // Every other request goes through the page table.  It is granted exactly if its frames may be
  // remapped, the area on offer is free, and the pages can all be entered.  Then the area is in use,
  // its pages are mapped in turn to the frames of the cover, and the address is the one that the
  // request's first byte has in it; otherwise nothing changes.
  lemma GrantedIff(reserved: set<nat>, highMemory: nat, table: map<nat, nat>, areas: map<nat, nat>,
                   phys: nat, size: nat, flags: nat, env: Env)
    requires 0 < size && phys + size <= 0x1_0000_0000
    requires phys + size > 0x2000_0000 || flags != 1024
    ensures var o, n := Answer(reserved, highMemory, table, areas, phys, size, flags, env), CoverPages(phys, size);
            if MayRemap(reserved, highMemory, phys, size) && Offered(table, areas, env.area, n)
               && !(env.remapFails.Some? && env.remapFails.value < n)
            then
              var area := env.area.value;
              && o.addr == Some(area + phys % 4096)
              && o.areas == areas[area := n * 4096]
              && (forall v: nat :: v in o.table <==> v in table || area / 4096 <= v < area / 4096 + n)
              && (forall v: nat | v in o.table ::
                    o.table[v] == if area / 4096 <= v < area / 4096 + n then phys / 4096 + (v - area / 4096)
                                  else table[v])
            else o == Outcome(None, table, areas)
  {
    hide Mapped, Wrap, VirtToPhys, HasRoom, WholeSpace, Offered, MayRemap, Allowed;
    PagesAre(phys, size);
    AllowedIff(reserved, highMemory, phys, size);
    RoomIff(table, areas, env.area, Pages(phys, size));
    if Offered(table, areas, env.area, Pages(phys, size)) {
      AddressInArea(table, areas, env.area, Pages(phys, size), phys);
    }
  }

  lemma PagesAre(phys: nat, size: nat)
    requires 0 < size && phys + size <= 0x1_0000_0000
    ensures Pages(phys, size) == CoverPages(phys, size)
  {
  }

  lemma AllowedIff(reserved: set<nat>, highMemory: nat, phys: nat, size: nat)
    requires 0 < size
    ensures Allowed(reserved, highMemory, phys, size) <==> MayRemap(reserved, highMemory, phys, size)
  {
  }

  lemma RoomIff(table: map<nat, nat>, areas: map<nat, nat>, area: Option<nat>, pages: nat)
    ensures Room(table, areas, pages * PAGE, area) == if Offered(table, areas, area, pages) then area else None
  {
    if area.Some? && area.value % PAGE == 0 {
      assert (area.value + pages * PAGE) / PAGE == area.value / PAGE + pages;
    }
  }

  lemma AddressInArea(table: map<nat, nat>, areas: map<nat, nat>, area: Option<nat>, pages: nat, phys: nat)
    requires Offered(table, areas, area, pages)
    ensures area.Some? && Wrap(area.value + phys % PAGE) == area.value + phys % 4096
  {
  }

  // ---------- the promises ----------

  // The i-th byte from virtual address v on is the i-th byte from phys on.
  predicate ReachesByte(table: map<nat, nat>, v: nat, phys: nat, i: nat) {
    Translate(table, Wrap(v + i)) == Some(phys + i)
  }

  ghost predicate Reaches(table: map<nat, nat>, v: nat, phys: nat, size: nat) {
    forall i: nat | i < size :: ReachesByte(table, v, phys, i)
  }

  // Every non-null answer to a request whose cover is not the whole space is an address through
  // which the hardware reaches exactly the requested bytes, on both paths.
  lemma MappingCorrect(reserved: set<nat>, highMemory: nat, table: map<nat, nat>, areas: map<nat, nat>,
                       phys: nat, size: nat, flags: nat, env: Env, i: nat)
    requires !WholeSpace(phys, size) && i < size
    ensures var o := Answer(reserved, highMemory, table, areas, phys, size, flags, env);
            o.addr.Some? ==> ReachesByte(o.table, o.addr.value, phys, i)
  {
    hide Mapped, Wrap, VirtToPhys, Translate, Allowed, PageCount;
    var o := Answer(reserved, highMemory, table, areas, phys, size, flags, env);
    if o.addr.Some? {
      if Direct(phys, size, flags) {
        DirectByte(table, phys, i);
      } else {
        MappedByte(table, env.area.value, phys, size, i);
      }
    }
  }

  lemma DirectByte(table: map<nat, nat>, phys: nat, i: nat)
    requires phys + i < LOW512
    ensures Translate(table, Wrap(phys + KSEG1 + i)) == Some(phys + i)
  {
  }

  lemma MappedByte(table: map<nat, nat>, addr: nat, phys: nat, size: nat, i: nat)
    requires i < size && addr % PAGE == 0 && KSEG2 <= addr && addr + PageCount(phys, size) * PAGE <= U32
    ensures var table' := Mapped(table, addr / PAGE, FirstPage(phys), PageCount(phys, size));
            Translate(table', Wrap(Wrap(addr + phys % PAGE) + i)) == Some(phys + i)
  {
    hide Mapped, Wrap, PageCount;
    var v := addr + phys % PAGE + i;
    PageOf(addr, phys, size, 0);
    PageOf(addr, phys, size, i);
    WrapSmall(addr + phys % PAGE);
    WrapSmall(v);
  }

  // The page and the offset of the i-th byte.
  lemma PageOf(addr: nat, phys: nat, size: nat, i: nat)
    requires addr % PAGE == 0 && i < size
    ensures var v, n := addr + phys % PAGE + i, PageCount(phys, size);
            && addr / PAGE <= v / PAGE < addr / PAGE + n && v < addr + n * PAGE
            && (FirstPage(phys) + (v / PAGE - addr / PAGE)) * PAGE + v % PAGE == phys + i
  {
  }

  // The promise in full: a non-null answer reaches the requested bytes unless the page cover is the
  // whole 32-bit space, and in that case it never does.
  lemma MappingCorrectIff(reserved: set<nat>, highMemory: nat, table: map<nat, nat>, areas: map<nat, nat>,
                          phys: nat, size: nat, flags: nat, env: Env)
    requires Answer(reserved, highMemory, table, areas, phys, size, flags, env).addr.Some?
    ensures var o := Answer(reserved, highMemory, table, areas, phys, size, flags, env);
            Reaches(o.table, o.addr.value, phys, size) <==> !WholeSpace(phys, size)
  {
    hide Mapped, VirtToPhys, Translate, Allowed;
    var o := Answer(reserved, highMemory, table, areas, phys, size, flags, env);
    if WholeSpace(phys, size) {
      WholeSpaceMisses(o.table, env.area.value, phys, size);
    } else {
      forall i: nat | i < size
        ensures ReachesByte(o.table, o.addr.value, phys, i)
      {
        MappingCorrect(reserved, highMemory, table, areas, phys, size, flags, env, i);
      }
    }
  }

  // Counting up through so many addresses arrives at KSEG0, which the table does not translate.
  lemma WholeSpaceMisses(table: map<nat, nat>, area: nat, phys: nat, size: nat)
    requires WholeSpace(phys, size) && KSEG2 <= area < U32
    ensures !Reaches(table, Wrap(area + phys % PAGE), phys, size)
  {
    var i := KSEG0 + U32 - area - phys;
    assert Wrap(Wrap(area + phys) + i) == KSEG0;
    assert !ReachesByte(table, Wrap(area + phys % PAGE), phys, i);
  }

  // Such an answer: all but the last byte of the space, on a machine without high memory.
  lemma WholeSpaceGranted()
    ensures var env := Env(Some(KSEG2), None);
            var o := Answer({}, KSEG0, map[], map[], 0, U32 - 1, 0, env);
            && o.addr == Some(KSEG2) && o.table == map[]
            && Translate(o.table, KSEG2) == None
            && !Reaches(o.table, KSEG2, 0, U32 - 1)
  {
    hide Reaches;
    WholeSpaceMisses(map[], KSEG2, 0, U32 - 1);
  }

  // What such an answer does to the table: only for the whole space does a non-null page-table
  // answer map nothing.
  lemma MapsNothingIff(reserved: set<nat>, highMemory: nat, table: map<nat, nat>, areas: map<nat, nat>,
                       phys: nat, size: nat, flags: nat, env: Env)
    requires Sound(phys, size) && !Direct(phys, size, flags)
    requires Answer(reserved, highMemory, table, areas, phys, size, flags, env).addr.Some?
    ensures Answer(reserved, highMemory, table, areas, phys, size, flags, env).table == table
            <==> WholeSpace(phys, size)
  {
    var o := Answer(reserved, highMemory, table, areas, phys, size, flags, env);
    if !WholeSpace(phys, size) {
      assert env.area.value / PAGE in o.table && env.area.value / PAGE !in table;
    }
  }

  // No mapping that existed before changes, a refused request leaves everything as it was, and
  // RAM below high memory is never mapped through the page table unless it is reserved.
  lemma NothingElse(reserved: set<nat>, highMemory: nat, table: map<nat, nat>, areas: map<nat, nat>,
                    phys: nat, size: nat, flags: nat, env: Env)
    ensures var o := Answer(reserved, highMemory, table, areas, phys, size, flags, env);
            && (forall v <- table :: v in o.table && o.table[v] == table[v])
            && (o.addr.None? ==> o.table == table && o.areas == areas)
            && (o.addr.Some? ==> Sound(phys, size))
            && (phys < VirtToPhys(highMemory) ==> forall v: nat | v in o.table && v !in table :: o.table[v] in reserved)
  {
  }
  // ---------- runs ----------

  datatype Request = Request(phys: nat, size: nat, flags: nat, env: Env)

  // What the last of these requests was answered, and the tables after them.
  ghost function Run(reserved: set<nat>, highMemory: nat, table: map<nat, nat>, areas: map<nat, nat>,
                     reqs: seq<Request>): Outcome
  {
    if reqs == [] then Outcome(None, table, areas) else
      var before, r := Run(reserved, highMemory, table, areas, reqs[..|reqs| - 1]), reqs[|reqs| - 1];
      Answer(reserved, highMemory, before.table, before.areas, r.phys, r.size, r.flags, r.env)
  }

  // Everything mapped after n requests is mapped to the same frame after all of them.
  lemma {:induction false} RunKeeps(reserved: set<nat>, highMemory: nat, table: map<nat, nat>, areas: map<nat, nat>,
                                    reqs: seq<Request>, n: nat)
    requires n <= |reqs|
    ensures var early := Run(reserved, highMemory, table, areas, reqs[..n]).table;
            var late := Run(reserved, highMemory, table, areas, reqs).table;
            forall v <- early :: v in late && late[v] == early[v]
    decreases |reqs|
  {
    hide Answer;
    if n == |reqs| {
      assert reqs[..n] == reqs;
    } else {
      var before, r := reqs[..|reqs| - 1], reqs[|reqs| - 1];
      assert before[..n] == reqs[..n];
      RunKeeps(reserved, highMemory, table, areas, before, n);
      var o := Run(reserved, highMemory, table, areas, before);
      NothingElse(reserved, highMemory, o.table, o.areas, r.phys, r.size, r.flags, r.env);
    }
  }

  lemma RunStep(reserved: set<nat>, highMemory: nat, table: map<nat, nat>, areas: map<nat, nat>,
                reqs: seq<Request>, n: nat)
    requires n < |reqs|
    ensures var before, r := Run(reserved, highMemory, table, areas, reqs[..n]), reqs[n];
            Run(reserved, highMemory, table, areas, reqs[..n + 1])
            == Answer(reserved, highMemory, before.table, before.areas, r.phys, r.size, r.flags, r.env)
  {
    hide Answer;
    assert reqs[..n + 1][..n] == reqs[..n];
  }

  lemma StillReaches(table: map<nat, nat>, table': map<nat, nat>, v: nat, phys: nat, size: nat)
    requires forall p <- table :: p in table' && table'[p] == table[p]
    requires Reaches(table, v, phys, size)
    ensures Reaches(table', v, phys, size)
  {
    hide Wrap;
    forall i: nat | i < size
      ensures ReachesByte(table', v, phys, i)
    {
      assert ReachesByte(table, v, phys, i);
    }
  }

  // A non-null address reaches its request at the end of every run, whatever was requested since,
  // exactly if its page cover is not the whole space.
  lemma ReachesForGoodIff(reserved: set<nat>, highMemory: nat, table: map<nat, nat>, areas: map<nat, nat>,
                          reqs: seq<Request>, n: nat)
    requires n < |reqs|
    requires Run(reserved, highMemory, table, areas, reqs[..n + 1]).addr.Some?
    ensures var v := Run(reserved, highMemory, table, areas, reqs[..n + 1]).addr.value;
            Reaches(Run(reserved, highMemory, table, areas, reqs).table, v, reqs[n].phys, reqs[n].size)
            <==> !WholeSpace(reqs[n].phys, reqs[n].size)
  {
    hide Answer, Reaches, WholeSpace, Run;
    var r := reqs[n];
    var before := Run(reserved, highMemory, table, areas, reqs[..n]);
    var o := Run(reserved, highMemory, table, areas, reqs[..n + 1]);
    RunStep(reserved, highMemory, table, areas, reqs, n);
    var late := Run(reserved, highMemory, table, areas, reqs).table;
    MappingCorrectIff(reserved, highMemory, before.table, before.areas, r.phys, r.size, r.flags, r.env);
    if WholeSpace(r.phys, r.size) {
      WholeSpaceAnswer(reserved, highMemory, before.table, before.areas, r);
      WholeSpaceMisses(late, r.env.area.value, r.phys, r.size);
    } else {
      RunKeeps(reserved, highMemory, table, areas, reqs, n + 1);
      StillReaches(o.table, late, o.addr.value, r.phys, r.size);
    }
  }

  lemma WholeSpaceAnswer(reserved: set<nat>, highMemory: nat, table: map<nat, nat>, areas: map<nat, nat>, r: Request)
    requires WholeSpace(r.phys, r.size)
    requires Answer(reserved, highMemory, table, areas, r.phys, r.size, r.flags, r.env).addr.Some?
    ensures var o := Answer(reserved, highMemory, table, areas, r.phys, r.size, r.flags, r.env);
            && r.env.area.Some? && KSEG2 <= r.env.area.value < U32
            && o.addr.value == Wrap(r.env.area.value + r.phys % PAGE)
  {
    hide Mapped, Allowed, Wrap;
  }

  // No run maps a frame of RAM below high memory through the page table unless it is reserved.
  lemma {:induction false} RamStaysUnmapped(reserved: set<nat>, highMemory: nat, table: map<nat, nat>,
                                            areas: map<nat, nat>, reqs: seq<Request>, v: nat)
    ensures var late := Run(reserved, highMemory, table, areas, reqs).table;
            v in late && v !in table && late[v] < VirtToPhys(highMemory) / PAGE ==> late[v] in reserved
    decreases |reqs|
  {
    hide Answer, VirtToPhys;
    if reqs != [] {
      var before, r := reqs[..|reqs| - 1], reqs[|reqs| - 1];
      RamStaysUnmapped(reserved, highMemory, table, areas, before, v);
      var o := Run(reserved, highMemory, table, areas, before);
      NothingElse(reserved, highMemory, o.table, o.areas, r.phys, r.size, r.flags, r.env);
      HighRequest(reserved, highMemory, o.table, o.areas, r, v);
    }
  }

  // A request from high memory on maps no frame below it.
  lemma HighRequest(reserved: set<nat>, highMemory: nat, table: map<nat, nat>, areas: map<nat, nat>, r: Request, v: nat)
    ensures var o := Answer(reserved, highMemory, table, areas, r.phys, r.size, r.flags, r.env);
            VirtToPhys(highMemory) <= r.phys && v in o.table && v !in table ==>
              VirtToPhys(highMemory) / PAGE <= o.table[v]
  {
    hide Wrap, VirtToPhys, Allowed, WholeSpace, PageCount, Mapped;
  }
}
