/** Per-process page tables: what each operation of the MMU code does to physical
    memory, loop by loop, as functions of the state. */
module PageTables {
  import opened Bits
  import opened Descriptors
  import opened Pmm

  const USER_LIMIT: nat := 0x4000_0000
  const ENTRIES: nat := 512

  /** Addresses of the statically allocated boot tables. */
  datatype Boot = Boot(l0: nat, l1: nat, l2: nat, l2hi: nat, l1uart: nat)

  /** The table addresses of a process's `struct vm_map`; 0 means not allocated. */
  datatype Vm = Vm(l0: nat, l1: nat, l2: nat)

  const NoVm: Vm := Vm(0, 0, 0)

  function L0Index(va: nat): (i: nat) ensures i < ENTRIES { (va / BLOCK_512G) % 512 }
  function L1Index(va: nat): (i: nat) ensures i < ENTRIES { (va / BLOCK_1G) % 512 }
  function L2Index(va: nat): (i: nat) ensures i < ENTRIES { (va / BLOCK_2M) % 512 }
  function L3Index(va: nat): (i: nat) ensures i < ENTRIES { (va / PAGE_SIZE) % 512 }

  /** mmu_vmap_create: three pages or none; private L0[0] -> L1[0] -> L2, everything
      else inherited from the boot tables. */
  function Create(s: Pool, b: Boot): (Pool, Vm) {
    var (s1, l0) := Alloc(s);
    var (s2, l1) := Alloc(s1);
    var (s3, l2) := Alloc(s2);
    if l0 == 0 || l1 == 0 || l2 == 0 then
      (Free(Free(Free(s3, l0), l1), l2), NoVm)
    else
      (s3.(mem := Wire(s3.mem, b, Vm(l0, l1, l2))), Vm(l0, l1, l2))
  }

  function Wire(mem: Memory, b: Boot, vm: Vm): Memory {
    var m1 := mem[vm.l0 := Peek(mem, b.l0)[0 := TableDesc(vm.l1)]];
    var m2 := m1[vm.l1 := Peek(mem, b.l1)[0 := TableDesc(vm.l2)]];
    m2[vm.l2 := Peek(mem, b.l2)]
  }

  /** vmap_l3_for: the L3 covering `va`, allocated on first use; 0 when out of pages. */
  function L3For(s: Pool, vm: Vm, va: nat): (Pool, nat) {
    if vm.l2 == 0 then (s, 0)
    else
      var e := Peek(s.mem, vm.l2)[L2Index(va)];
      if IsTable(e) then (s, PaOf(e))
      else
        var (s1, l3) := Alloc(s);
        if l3 == 0 then (s1, 0)
        else (s1.(mem := Poke(s1.mem, vm.l2, L2Index(va), TableDesc(l3))), l3)
  }

  /** mmu_vmap_map_user_4k */
  function MapUser(s: Pool, vm: Vm, va: nat, pa: nat): (Pool, bool) {
    var (s1, l3) := L3For(s, vm, va);
    if l3 == 0 then (s1, false)
    else (s1.(mem := Poke(s1.mem, l3, L3Index(va), PageDesc(pa))), true)
  }

  /** The page descriptor installed for `va`, or 0. */
  function UserEntry(mem: Memory, vm: Vm, va: nat): nat {
    if vm.l2 == 0 then 0
    else
      var e2 := Peek(mem, vm.l2)[L2Index(va)];
      if !IsTable(e2) then 0 else Peek(mem, PaOf(e2))[L3Index(va)]
  }

  /** mmu_vmap_user_va_to_kva: kernel address of a mapped user byte, 0 otherwise. */
  function UserToKernel(mem: Memory, vm: Vm, va: nat): nat {
    var e3 := UserEntry(mem, vm, va);
    if !IsValid(e3) then 0 else PaOf(e3) + va % PAGE_SIZE
  }

  /** mmu_vmap_unmap_user_4k: the freed address, or 0. */
  function UnmapUser(s: Pool, vm: Vm, va: nat): (Pool, nat) {
    var e3 := UserEntry(s.mem, vm, va);
    if !IsValid(e3) then (s, 0)
    else
      var l3 := PaOf(Peek(s.mem, vm.l2)[L2Index(va)]);
      var s1 := s.(mem := Poke(s.mem, l3, L3Index(va), 0));
      (Free(s1, PaOf(e3)), PaOf(e3))
  }

  /** Inner loop of vmap_free_user_l3s from entry `j` on. */
  function FreePages(s: Pool, l3: nat, j: nat): Pool
    requires j <= ENTRIES
    decreases ENTRIES - j
  {
    if j == ENTRIES then s
    else
      var e := Peek(s.mem, l3)[j];
      FreePages(if IsValid(e) then Free(s, PaOf(e)) else s, l3, j + 1)
  }

  /** Outer loop of vmap_free_user_l3s from entry `i` on. */
  function FreeTables(s: Pool, l2: nat, i: nat): Pool
    requires i <= ENTRIES
    decreases ENTRIES - i
  {
    if i == ENTRIES then s
    else
      var e := Peek(s.mem, l2)[i];
      if !IsTable(e) then FreeTables(s, l2, i + 1)
      else
        var s1 := Free(FreePages(s, PaOf(e), 0), PaOf(e));
        FreeTables(s1.(mem := Poke(s1.mem, l2, i, 0)), l2, i + 1)
  }

  /** mmu_vmap_destroy */
  function Destroy(s: Pool, vm: Vm): Pool {
    var s1 := if vm.l2 != 0 then FreeTables(s, vm.l2, 0) else s;
    Free(Free(Free(s1, vm.l0), vm.l1), vm.l2)
  }

  /** The four indices and the page offset are the fields of a 48-bit address. */
  lemma IndexFields(va: nat)
    requires va < PHYS_LIMIT
    ensures va == L0Index(va) * 0x80_0000_0000 + L1Index(va) * 0x4000_0000 + L2Index(va) * 0x20_0000 +
                  L3Index(va) * 0x1000 + va % 0x1000
  {
    var a, a0 := va / 0x1000, va % 0x1000;
    var b, b0 := a / 512, a % 512;
    var c, c0 := b / 512, b % 512;
    var d, d0 := c / 512, c % 512;
    DivMod(va, 0x1000);
    DivMod(a, 512);
    DivMod(b, 512);
    DivMod(c, 512);
    DivModUnique(va, 0x20_0000, b, b0 * 0x1000 + a0);
    DivModUnique(va, 0x4000_0000, c, (c0 * 512 + b0) * 0x1000 + a0);
    DivModUnique(va, 0x80_0000_0000, d, ((d0 * 512 + c0) * 512 + b0) * 0x1000 + a0);
    DivModUnique(d, 512, 0, d);
  }
}
