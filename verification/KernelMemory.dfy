/** The allocator and page-table code in its own form: a kernel object whose memory and
    free list are updated in place, loop by loop.  Each method does exactly what the
    corresponding function of `Pmm`, `PageTables` or `BootTables` says. */
module KernelMemory {
  import opened Descriptors
  import opened Pmm
  import opened PageTables
  import opened PageWalk
  import opened BootTables
  import opened BootMapping

  /** `struct vm_map`: the addresses of a process's own tables. */
  class VmMap {
    var l0: nat
    var l1: nat
    var l2: nat

    constructor ()
      ensures Tables() == NoVm
    {
      l0, l1, l2 := 0, 0, 0;
    }

    function Tables(): Vm
      reads this
    {
      Vm(l0, l1, l2)
    }
  }

  class Kernel {
    var mem: Memory
    var freelist: nat
    var freeCount: int
    const boot: Boot

    constructor (mem: Memory, boot: Boot)
      ensures View() == Pool(mem, 0, 0) && this.boot == boot
    {
      this.mem, freelist, freeCount, this.boot := mem, 0, 0, boot;
    }

    function View(): Pool
      reads this
    {
      Pool(mem, freelist, freeCount)
    }

    method PmmFree(p: nat)
      modifies this
      ensures View() == Free(old(View()), p)
    {
      if p == 0 { return; }
      mem := Poke(mem, p, 0, freelist);
      freelist := p;
      freeCount := freeCount + 1;
    }

    method ZeroFrame(p: nat)
      modifies this`mem
      ensures mem == if p in old(mem) then old(mem)[p := ZeroPage] else old(mem)
    {
      var i := 0;
      while i < WORDS
        invariant i <= WORDS
        invariant mem.Keys == old(mem).Keys
        invariant forall q :: q in mem && q != p ==> mem[q] == old(mem)[q]
        invariant p in mem ==> forall k :: 0 <= k < i ==> mem[p][k] == 0
      {
        mem := Poke(mem, p, i, 0);
        i := i + 1;
      }
      assert p in mem ==> mem[p] == ZeroPage;
    }

    method PmmAlloc() returns (p: nat)
      modifies this
      ensures (View(), p) == Alloc(old(View()))
    {
      if freelist == 0 { return 0; }
      p := freelist;
      freelist := Peek(mem, p)[0];
      freeCount := freeCount - 1;
      ZeroFrame(p);
    }

    /** Enrols [start, end) after rounding both bounds inwards to pages: its whole pages, in
        ascending order, go in front of the list `free`. */
    method PmmAddRange(start: nat, end: nat, ghost free: seq<nat>) returns (ghost pages: seq<nat>)
      requires start < ADDRESSES && end < ADDRESSES
      modifies this
      ensures View() == Enrol(old(View()), AlignUp(start), AlignDown(end))
      ensures Ascending(pages)
      ensures start <= ADDRESSES - 4096 || end < 8192 ==> forall p :: p in pages <==> Whole(p, start, end)
      ensures FreeIs(old(View()), free) && (forall p :: p in pages ==> p in old(mem) && p !in free) ==>
                FreeIs(View(), pages + free) && mem.Keys == old(mem).Keys
    {
      pages := RangePages(start, end);
      WholePagesIff(start, end);
      if FreeIs(View(), free) && forall p :: p in pages ==> p in mem && p !in free {
        AddRangePushes(View(), free, start, end);
      }
      PushRange(start, end);
    }

    /** The loop of pmm_add_range, highest page first. */
    method PushRange(start: nat, end: nat)
      modifies this
      ensures View() == Enrol(old(View()), AlignUp(start), AlignDown(end))
    {
      var lo, hi := AlignUp(start), AlignDown(end);
      if hi <= lo { return; }
      var pa := hi;
      assert View() == Enrol(old(View()), pa, hi);
      while pa > lo
        invariant lo <= pa <= hi && pa % PAGE_SIZE == 0
        invariant View() == Enrol(old(View()), pa, hi)
      {
        pa := pa - PAGE_SIZE;
        PmmFree(pa);
      }
    }

    /** dst[i] = src[i] for every entry from `from` on. */
    method CopyEntries(dst: nat, src: nat, from: nat)
      requires dst in mem && src in mem && dst != src && from <= ENTRIES
      modifies this`mem
      ensures mem == old(mem)[dst := old(mem)[dst][..from] + old(mem)[src][from..]]
    {
      var i := from;
      while i < ENTRIES
        invariant from <= i <= ENTRIES
        invariant mem.Keys == old(mem).Keys
        invariant forall q :: q in mem && q != dst ==> mem[q] == old(mem)[q]
        invariant forall k :: 0 <= k < ENTRIES ==> mem[dst][k] == if from <= k < i then old(mem)[src][k]
                    else old(mem)[dst][k]
      {
        mem := Poke(mem, dst, i, Peek(mem, src)[i]);
        i := i + 1;
      }
      assert mem[dst] == old(mem)[dst][..from] + old(mem)[src][from..];
    }

    /** Fills a fresh trio of tables for a process. */
    method WireTables(l0: nat, l1: nat, l2: nat)
      requires boot.l0 in mem && boot.l1 in mem && boot.l2 in mem
      requires l0 in mem && l1 in mem && l2 in mem && l0 != l1 && l1 != l2 && l0 != l2
      requires {boot.l0, boot.l1, boot.l2} !! {l0, l1, l2}
      modifies this`mem
      ensures mem == Wire(old(mem), boot, Vm(l0, l1, l2))
    {
      hide TableDesc, Wire;
      assert boot.l0 in {boot.l0, boot.l1, boot.l2} && boot.l1 in {boot.l0, boot.l1, boot.l2}
          && boot.l2 in {boot.l0, boot.l1, boot.l2};
      mem := Poke(mem, l0, 0, TableDesc(l1));
      mem := Poke(mem, l1, 0, TableDesc(l2));
      CopyEntries(l1, boot.l1, 1);
      CopyEntries(l0, boot.l0, 1);
      CopyEntries(l2, boot.l2, 0);
      WireIs(old(mem), mem, boot, Vm(l0, l1, l2));
    }

    /** mmu_vmap_create; the boot tables are never on the free list. */
    method VmapCreate(vm: VmMap, ghost free: seq<nat>) returns (ok: bool)
      requires FreeIs(View(), free)
      requires boot.l0 in mem && boot.l1 in mem && boot.l2 in mem
      requires boot.l0 !in free && boot.l1 !in free && boot.l2 !in free
      modifies this, vm
      ensures View() == Create(old(View()), boot).0
      ensures ok <==> Create(old(View()), boot).1 != NoVm
      ensures vm.Tables() == if ok then Create(old(View()), boot).1 else old(vm.Tables())
    {
      hide Alloc, Free, Wire, IsList;
      var l0, l1, l2 := AllocThree(free);
      if l0 == 0 || l1 == 0 || l2 == 0 {
        PmmFree(l0);
        PmmFree(l1);
        PmmFree(l2);
        return false;
      }
      WireTables(l0, l1, l2);
      vm.l0, vm.l1, vm.l2 := l0, l1, l2;
      return true;
    }

    /** Three allocations in a row, from a list that holds no boot table. */
    method AllocThree(ghost free: seq<nat>) returns (l0: nat, l1: nat, l2: nat)
      requires FreeIs(View(), free)
      modifies this
      ensures var (s1, p0) := Alloc(old(View()));
              var (s2, p1) := Alloc(s1);
              (View(), l2) == Alloc(s2) && l0 == p0 && l1 == p1
      ensures mem.Keys == old(mem).Keys
      ensures l2 != 0 ==>
                && |free| >= 3 && l0 == free[0] && l1 == free[1] && l2 == free[2]
                && l0 in mem && l1 in mem && l2 in mem && l0 != l1 && l1 != l2 && l0 != l2
      ensures l0 == 0 || l1 == 0 ==> l2 == 0
    {
      AllocPops(View(), free);
      ghost var free1 := if free == [] then [] else free[1..];
      l0 := PmmAlloc();
      AllocPops(View(), free1);
      ghost var free2 := if free1 == [] then [] else free1[1..];
      l1 := PmmAlloc();
      AllocPops(View(), free2);
      l2 := PmmAlloc();
    }

    method VmapL3For(vm: VmMap, va: nat) returns (l3: nat)
      modifies this
      ensures (View(), l3) == L3For(old(View()), vm.Tables(), va)
    {
      if vm.l2 == 0 { return 0; }
      var e := Peek(mem, vm.l2)[L2Index(va)];
      if IsTable(e) { return PaOf(e); }
      l3 := PmmAlloc();
      if l3 == 0 { return 0; }
      mem := Poke(mem, vm.l2, L2Index(va), TableDesc(l3));
    }

    method VmapMapUser4k(vm: VmMap, va: nat, pa: nat) returns (ok: bool)
      modifies this
      ensures (View(), ok) == MapUser(old(View()), vm.Tables(), va, pa)
    {
      var l3 := VmapL3For(vm, va);
      if l3 == 0 { return false; }
      mem := Poke(mem, l3, L3Index(va), PageDesc(pa));
      return true;
    }

    method VmapUserVaToKva(vm: VmMap, va: nat) returns (kva: nat)
      ensures kva == UserToKernel(mem, vm.Tables(), va)
    {
      assert !IsValid(0) by { ZeroInvalid(); }
      if vm.l2 == 0 { return 0; }
      var e2 := Peek(mem, vm.l2)[L2Index(va)];
      if !IsValid(e2) { return 0; }
      if !IsTable(e2) { return 0; }
      var e3 := Peek(mem, PaOf(e2))[L3Index(va)];
      if !IsValid(e3) { return 0; }
      return PaOf(e3) + va % PAGE_SIZE;
    }

    method VmapUnmapUser4k(vm: VmMap, va: nat) returns (pa: nat)
      modifies this
      ensures (View(), pa) == UnmapUser(old(View()), vm.Tables(), va)
    {
      assert !IsValid(0) by { ZeroInvalid(); }
      if vm.l2 == 0 { return 0; }
      var e2 := Peek(mem, vm.l2)[L2Index(va)];
      if !IsTable(e2) { return 0; }
      var l3 := PaOf(e2);
      var e3 := Peek(mem, l3)[L3Index(va)];
      if !IsValid(e3) { return 0; }
      pa := PaOf(e3);
      mem := Poke(mem, l3, L3Index(va), 0);
      PmmFree(pa);
    }

    /** The inner loop of teardown: the pages one L3 table maps. */
    method FreeMapped(l3: nat)
      modifies this
      ensures View() == FreePages(old(View()), l3, 0)
    {
      hide Free, IsValid, PaOf;
      var j := 0;
      while j < ENTRIES
        invariant j <= ENTRIES
        invariant FreePages(View(), l3, j) == FreePages(old(View()), l3, 0)
      {
        var pe := Peek(mem, l3)[j];
        if IsValid(pe) { PmmFree(PaOf(pe)); }
        j := j + 1;
      }
    }

    method VmapFreeUserL3s(l2: nat)
      modifies this
      ensures View() == FreeTables(old(View()), l2, 0)
    {
      hide Free, FreePages, IsTable, PaOf;
      var i := 0;
      while i < ENTRIES
        invariant i <= ENTRIES
        invariant FreeTables(View(), l2, i) == FreeTables(old(View()), l2, 0)
      {
        var e := Peek(mem, l2)[i];
        if IsTable(e) {
          var l3 := PaOf(e);
          FreeMapped(l3);
          PmmFree(l3);
          mem := Poke(mem, l2, i, 0);
        }
        i := i + 1;
      }
    }

    method VmapDestroy(vm: VmMap)
      modifies this, vm
      ensures View() == Destroy(old(View()), old(vm.Tables())) && vm.Tables() == NoVm
    {
      if vm.l2 != 0 { VmapFreeUserL3s(vm.l2); }
      if vm.l0 != 0 { PmmFree(vm.l0); }
      if vm.l1 != 0 { PmmFree(vm.l1); }
      if vm.l2 != 0 { PmmFree(vm.l2); }
      vm.l0, vm.l1, vm.l2 := 0, 0, 0;
    }

    /** The 2 MB blocks of the RAM gigabyte. */
    method FillHigh()
      requires boot.l2hi in mem
      modifies this`mem
      ensures mem == old(mem)[boot.l2hi := seq(WORDS, i requires 0 <= i < WORDS => HighEntry(i))]
    {
      hide NormalBlock;
      var i := 0;
      while i < ENTRIES
        invariant i <= ENTRIES && mem.Keys == old(mem).Keys
        invariant forall q :: q in mem && q != boot.l2hi ==> mem[q] == old(mem)[q]
        invariant forall k :: 0 <= k < i ==> mem[boot.l2hi][k] == HighEntry(k)
      {
        mem := Poke(mem, boot.l2hi, i, NormalBlock(RAM_BASE + i * BLOCK_2M));
        i := i + 1;
      }
      assert mem[boot.l2hi] == seq(WORDS, i requires 0 <= i < WORDS => HighEntry(i));
    }

    /** The 2 MB blocks of the low gigabyte, Device in the peripheral window. */
    method FillLow()
      requires boot.l2 in mem
      modifies this`mem
      ensures mem == old(mem)[boot.l2 := seq(WORDS, i requires 0 <= i < WORDS => LowEntry(i))]
    {
      hide NormalBlock, DeviceBlock;
      var i := 0;
      while i < ENTRIES
        invariant i <= ENTRIES && mem.Keys == old(mem).Keys
        invariant forall q :: q in mem && q != boot.l2 ==> mem[q] == old(mem)[q]
        invariant forall k :: 0 <= k < i ==> mem[boot.l2][k] == LowEntry(k)
      {
        var pa := i * BLOCK_2M;
        var desc := if PERIPH_BASE <= pa < PERIPH_END then DeviceBlock(pa) else NormalBlock(pa);
        mem := Poke(mem, boot.l2, i, desc);
        i := i + 1;
      }
      assert mem[boot.l2] == seq(WORDS, i requires 0 <= i < WORDS => LowEntry(i));
    }

    method BuildIdentityMap()
      requires BootFrames(mem, boot)
      modifies this`mem
      ensures mem == BuildIdentity(old(mem), boot)
    {
      hide TableDesc, NormalBlock, DeviceBlock, LowEntry, HighEntry;
      mem := Poke(mem, boot.l0, 0, TableDesc(boot.l1));
      mem := Poke(mem, boot.l1, 0, TableDesc(boot.l2));
      mem := Poke(mem, boot.l1, 1, TableDesc(boot.l2hi));
      FillHigh();
      FillLow();
    }

    /** mmu_init up to switching the MMU on: the identity map, then the console UART if the
        firmware named one. */
    method MmuInit(uart: nat)
      requires BootFrames(mem, boot)
      modifies this`mem
      ensures mem == WireUart(BuildIdentity(old(mem), boot), boot, uart)
      ensures Fresh(old(mem), boot) && uart < PHYS_LIMIT ==>
                forall va: nat :: va < PHYS_LIMIT ==> Walk(mem, boot.l0, va) == Expected(uart, va)
    {
      hide BuildIdentity, TableDesc, DeviceBlock, Walk, Expected, Fresh;
      BuildIdentityMap();
      if uart != 0 {
        var base := uart / BLOCK_1G * BLOCK_1G;
        var l0i, l1i, l2i := L0Index(base), L1Index(base), L2Index(uart);
        if l0i == 0 && l1i == 1 {
          mem := Poke(mem, boot.l2hi, l2i, DeviceBlock(uart / BLOCK_2M * BLOCK_2M));
        } else if l0i == 0 {
          mem := Poke(mem, boot.l2, l2i, DeviceBlock(uart / BLOCK_2M * BLOCK_2M));
        } else {
          mem := Poke(mem, boot.l0, l0i, TableDesc(boot.l1uart));
          mem := Poke(mem, boot.l1uart, l1i, DeviceBlock(base));
        }
      }
      if Fresh(old(mem), boot) && uart < PHYS_LIMIT { MapsEverywhere(old(mem), boot, uart); }
    }

    method MapDevice1gb(va: nat)
      modifies this
      ensures View() == MapDevice(old(View()), boot, va)
    {
      var base := va / BLOCK_1G * BLOCK_1G;
      var l0i, l1i := L0Index(base), L1Index(base);
      var l1;
      if l0i == 0 {
        l1 := boot.l1;
      } else {
        var e := Peek(mem, boot.l0)[l0i];
        if IsValid(e) {
          l1 := TableOf(e);
        } else {
          l1 := PmmAlloc();
          if l1 == 0 { return; }
          ZeroFrame(l1);
          mem := Poke(mem, boot.l0, l0i, TableDesc(l1));
        }
      }
      mem := Poke(mem, l1, l1i, DeviceBlock(base));
    }
  }

  /** Memory with three tables filled from the boot tables, page by page. */
  lemma WireIs(was: Memory, mem: Memory, b: Boot, vm: Vm)
    requires b.l0 in was && b.l1 in was && b.l2 in was && vm.l0 in was && vm.l1 in was && vm.l2 in was
    requires vm.l0 != vm.l1 && vm.l1 != vm.l2 && vm.l0 != vm.l2 && mem.Keys == was.Keys
    requires mem[vm.l0] == [TableDesc(vm.l1)] + was[b.l0][1..] && mem[vm.l1] == [TableDesc(vm.l2)] + was[b.l1][1..]
    requires mem[vm.l2] == was[b.l2]
    requires forall q :: q in was && q !in {vm.l0, vm.l1, vm.l2} ==> mem[q] == was[q]
    ensures mem == Wire(was, b, vm)
  {
    hide TableDesc;
    assert mem[vm.l0] == was[b.l0][0 := TableDesc(vm.l1)];
    assert mem[vm.l1] == was[b.l1][0 := TableDesc(vm.l2)];
  }
}
