/** The kernel's whole address map after mmu_init, as a function of the console UART address. */
module BootMapping {
  import opened Bits
  import opened Descriptors
  import opened Pmm
  import opened PageTables
  import opened PageWalk
  import opened BootTables

  const SLOT: nat := 0x20_0000
  const GIGABYTE: nat := 0x4000_0000
  const FAR: nat := 0x80_0000_0000

  /** The first 2 GB to themselves, Device in the peripheral window and Normal elsewhere. */
  function Identity(va: nat): Reach {
    if va < 0x8000_0000 then Hit(va, 0x0800_0000 <= va < 0x4000_0000, false) else Fault
  }

  /** Where the kernel reaches after mmu_init with the console at `uart` (0 for none): the UART's
      2 MB slot is Device below 2 GB, its gigabyte from 512 GB on; in between a slot of the low
      gigabyte leads to it instead. Everything else is the identity map. */
  function Expected(uart: nat, va: nat): Reach {
    if 0 < uart < 0x8000_0000 && va / SLOT == uart / SLOT then Hit(va, true, false)
    else if 0x8000_0000 <= uart < FAR && va < GIGABYTE && va / SLOT == uart / SLOT % 512 then
      Hit(uart / SLOT * SLOT + va % SLOT, true, false)
    else if FAR <= uart && va / GIGABYTE == uart / GIGABYTE then Hit(va, true, false)
    else Identity(va)
  }

  /** The upper levels of the boot tables. */
  ghost predicate Upper(m: Memory, b: Boot) {
    && BootFrames(m, b) && m[b.l0][0] == TableDesc(b.l1)
    && m[b.l1][0] == TableDesc(b.l2) && m[b.l1][1] == TableDesc(b.l2hi)
    && (forall i :: 2 <= i < ENTRIES ==> m[b.l1][i] == 0)
    && forall i :: 0 <= i < ENTRIES ==> !IsTable(m[b.l2][i]) && !IsTable(m[b.l2hi][i])
  }

  /** The level-2 table of an address below 2 GB. */
  function LowTable(b: Boot, va: nat): nat { if va < RAM_BASE then b.l2 else b.l2hi }

  lemma LowWalk(m: Memory, b: Boot, va: nat)
    requires Upper(m, b) && va < TWO_GB
    ensures Walk(m, b.l0, va) == WalkL2(m, LowTable(b, va), va)
  {
    hide IsTable, IsValid, PaOf, TableDesc, WalkL2, L0Index, L1Index, L2Index;
    IndexFacts(va);
    TableDescRoundTrip(b.l1);
    TableDescRoundTrip(b.l2);
    TableDescRoundTrip(b.l2hi);
  }

  lemma MiddleFaults(m: Memory, b: Boot, va: nat)
    requires Upper(m, b) && TWO_GB <= va < BLOCK_512G
    ensures Walk(m, b.l0, va) == Fault
  {
    hide IsTable, IsValid, PaOf, TableDesc, L0Index, L1Index;
    IndexFacts(va);
    TableDescRoundTrip(b.l1);
    ZeroInvalid();
  }

  lemma FarFaults(m: Memory, b: Boot, va: nat)
    requires b.l0 in m && m[b.l0][L0Index(va)] == 0
    ensures Walk(m, b.l0, va) == Fault
  {
    hide IsTable, L0Index;
    ZeroInvalid();
  }

  lemma IdentityUpper(mem: Memory, b: Boot)
    requires Fresh(mem, b)
    ensures var m := BuildIdentity(mem, b);
            Upper(m, b) && m[b.l1uart] == ZeroPage && forall i :: 0 < i < ENTRIES ==> m[b.l0][i] == 0
  {
    hide IsTable, IsValid, PaOf, TableDesc, LowEntry, HighEntry;
    IdentityIsTree(mem, b);
  }

  lemma IdentityIs(mem: Memory, b: Boot, va: nat)
    requires Fresh(mem, b) && va < PHYS_LIMIT
    ensures Walk(BuildIdentity(mem, b), b.l0, va) == Identity(va)
  {
    hide Walk, BuildIdentity;
    IdentityMap(mem, b, va);
  }

  lemma SlotIndex(va: nat, uart: nat)
    requires va < TWO_GB && uart < BLOCK_512G
    ensures uart < TWO_GB ==>
              ((va < RAM_BASE <==> uart < RAM_BASE) && L2Index(va) == L2Index(uart) <==> va / SLOT == uart / SLOT)
    ensures TWO_GB <= uart && va < RAM_BASE ==> (L2Index(va) == L2Index(uart) <==> va / SLOT == uart / SLOT % 512)
  {
    SlotHalf(va);
    if uart < TWO_GB { SlotHalf(uart); }
  }

  lemma SlotHalf(va: nat)
    requires va < TWO_GB
    ensures va / SLOT == L2Index(va) + if va < RAM_BASE then 0 else 512
  {
    var q := va / SLOT;
    DivMod(va, SLOT);
    if va < RAM_BASE { DivModUnique(q, 512, 0, q); } else { DivModUnique(q, 512, 1, q - 512); }
  }

  /** One level-2 slot made a Device block at `base`. */
  lemma SlotPatched(m: Memory, b: Boot, l2: nat, k: nat, base: nat, va: nat)
    requires Upper(m, b) && (l2 == b.l2 || l2 == b.l2hi) && k < ENTRIES && va < PHYS_LIMIT
    requires Fits(base, 0) && base / BLOCK_2M * BLOCK_2M == base
    requires forall i :: 0 < i < ENTRIES ==> m[b.l0][i] == 0
    ensures Walk(Poke(m, l2, k, DeviceBlock(base)), b.l0, va)
         == if va < TWO_GB && LowTable(b, va) == l2 && L2Index(va) == k then Hit(base + va % BLOCK_2M, true, false)
            else Walk(m, b.l0, va)
  {
    hide IsTable, IsValid, PaOf, TableDesc, DeviceBlock, Walk, WalkL3, L0Index, L1Index, L2Index, IsDevice, UserAccess;
    var m' := Poke(m, l2, k, DeviceBlock(base));
    DeviceBlockRoundTrip(base);
    assert Upper(m', b) && m'[b.l0] == m[b.l0];
    if va < TWO_GB {
      LowWalk(m, b, va);
      LowWalk(m', b, va);
    } else if va < BLOCK_512G {
      MiddleFaults(m, b, va);
      MiddleFaults(m', b, va);
    } else {
      IndexFacts(va);
      FarFaults(m, b, va);
      FarFaults(m', b, va);
    }
  }

  /** The table for a UART beyond the first 512 GB. */
  lemma FarWired(m: Memory, b: Boot, uart: nat, va: nat)
    requires Upper(m, b) && m[b.l1uart] == ZeroPage && BLOCK_512G <= uart < PHYS_LIMIT && va < PHYS_LIMIT
    requires forall i :: 0 < i < ENTRIES ==> m[b.l0][i] == 0
    ensures var m1 := Poke(m, b.l0, L0Index(uart), TableDesc(b.l1uart));
            var m2 := Poke(m1, b.l1uart, L1Index(uart), DeviceBlock(uart / BLOCK_1G * BLOCK_1G));
            Walk(m2, b.l0, va) == if va / BLOCK_1G == uart / BLOCK_1G then Hit(va, true, false) else Walk(m, b.l0, va)
  {
    hide IsTable, IsValid, PaOf, TableDesc, DeviceBlock, WalkL2, BlockHit, L0Index, L1Index, L2Index;
    var base := uart / BLOCK_1G * BLOCK_1G;
    var m1 := Poke(m, b.l0, L0Index(uart), TableDesc(b.l1uart));
    var m2 := Poke(m1, b.l1uart, L1Index(uart), DeviceBlock(base));
    IndexFacts(uart);
    IndexFacts(va);
    SameGigabyte(va, uart);
    if va < BLOCK_512G {
      FarKeepsLow(m, m2, b, va);
    } else {
      TableDescRoundTrip(b.l1uart);
      ZeroInvalid();
      if va / BLOCK_1G == uart / BLOCK_1G { BlockHits(DeviceBlock(base), base, BLOCK_1G, va, true); }
    }
  }

  lemma FarKeepsLow(m: Memory, m2: Memory, b: Boot, va: nat)
    requires Upper(m, b) && va < BLOCK_512G && BootFrames(m2, b)
    requires m2[b.l0][0] == m[b.l0][0] && m2[b.l1] == m[b.l1] && m2[b.l2] == m[b.l2] && m2[b.l2hi] == m[b.l2hi]
    ensures Walk(m2, b.l0, va) == Walk(m, b.l0, va)
  {
    hide IsTable, IsValid, PaOf, TableDesc, BlockHit, Walk, WalkL3, L0Index, L1Index, L2Index;
    if va < TWO_GB {
      LowWalk(m, b, va);
      LowWalk(m2, b, va);
    } else {
      MiddleFaults(m, b, va);
      MiddleFaults(m2, b, va);
    }
  }

  /** mmu_init, for every console address and every kernel address. */
  lemma MmuInitMaps(mem: Memory, b: Boot, uart: nat, va: nat)
    requires Fresh(mem, b) && uart < PHYS_LIMIT && va < PHYS_LIMIT
    ensures Walk(WireUart(BuildIdentity(mem, b), b, uart), b.l0, va) == Expected(uart, va)
  {
    hide TableDesc, DeviceBlock, Walk, L0Index, L1Index, L2Index, BuildIdentity, Upper, Identity;
    var m := BuildIdentity(mem, b);
    IdentityUpper(mem, b);
    IdentityIs(mem, b, va);
    if uart != 0 {
      IndexFacts(uart);
      GigabyteIndices(uart);
      if uart < BLOCK_512G {
        NearUart(m, b, uart, va);
      } else {
        FarWired(m, b, uart, va);
      }
    }
  }

  lemma NearUart(m: Memory, b: Boot, uart: nat, va: nat)
    requires Upper(m, b) && 0 < uart < BLOCK_512G && va < PHYS_LIMIT
    requires forall i :: 0 < i < ENTRIES ==> m[b.l0][i] == 0
    requires Walk(m, b.l0, va) == Identity(va)
    ensures var l2 := if RAM_BASE <= uart < TWO_GB then b.l2hi else b.l2;
            Walk(Poke(m, l2, L2Index(uart), DeviceBlock(uart / BLOCK_2M * BLOCK_2M)), b.l0, va) == Expected(uart, va)
  {
    hide DeviceBlock, Walk, L2Index, Identity;
    var l2 := if RAM_BASE <= uart < TWO_GB then b.l2hi else b.l2;
    var base := uart / BLOCK_2M * BLOCK_2M;
    BaseFits(uart / BLOCK_2M, BLOCK_2M, uart);
    SlotPatched(m, b, l2, L2Index(uart), base, va);
    if va < TWO_GB {
      SlotIndex(va, uart);
      if va / SLOT == uart / SLOT { SameSlot(va, uart); }
    } else {
      SlotsApart(va, uart);
    }
  }

  lemma SameSlot(va: nat, uart: nat)
    requires va / SLOT == uart / SLOT
    ensures uart / SLOT * SLOT + va % SLOT == va
  {
    DivMod(va, SLOT);
  }

  lemma SlotsApart(va: nat, uart: nat)
    requires va >= TWO_GB
    ensures uart < TWO_GB ==> va / SLOT != uart / SLOT
  {
    DivMod(va, SLOT);
    DivMod(uart, SLOT);
  }

  lemma MapsEverywhere(mem: Memory, b: Boot, uart: nat)
    requires Fresh(mem, b) && uart < PHYS_LIMIT
    ensures forall va: nat :: va < PHYS_LIMIT ==>
              Walk(WireUart(BuildIdentity(mem, b), b, uart), b.l0, va) == Expected(uart, va)
  {
    hide Walk, WireUart, BuildIdentity, Expected, Fresh;
    forall va: nat | va < PHYS_LIMIT
      ensures Walk(WireUart(BuildIdentity(mem, b), b, uart), b.l0, va) == Expected(uart, va)
    {
      MmuInitMaps(mem, b, uart, va);
    }
  }
}
