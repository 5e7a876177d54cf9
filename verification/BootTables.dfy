/** The boot page tables: the identity map, the console UART window, and the 1 GB device
    windows added at platform initialisation. */
module BootTables {
  import opened Bits
  import opened Descriptors
  import opened Pmm
  import opened PageTables
  import opened PageLifecycle
  import opened PageWalk

  const PERIPH_BASE: nat := 0x0800_0000
  const PERIPH_END: nat := 0x4000_0000
  const RAM_BASE: nat := 0x4000_0000
  const TWO_GB: nat := 0x8000_0000

  /** Entry `i` of the L2 for the low gigabyte. */
  function LowEntry(i: nat): nat {
    var pa := i * BLOCK_2M;
    if PERIPH_BASE <= pa < PERIPH_END then DeviceBlock(pa) else NormalBlock(pa)
  }

  /** Entry `i` of the L2 for the RAM gigabyte. */
  function HighEntry(i: nat): nat { NormalBlock(RAM_BASE + i * BLOCK_2M) }

  /** build_identity_map */
  function BuildIdentity(mem: Memory, b: Boot): Memory {
    var m1 := mem[b.l0 := Peek(mem, b.l0)[0 := TableDesc(b.l1)]];
    var m2 := m1[b.l1 := Peek(m1, b.l1)[0 := TableDesc(b.l2)][1 := TableDesc(b.l2hi)]];
    var m3 := m2[b.l2hi := seq(WORDS, i requires 0 <= i < WORDS => HighEntry(i))];
    m3[b.l2 := seq(WORDS, i requires 0 <= i < WORDS => LowEntry(i))]
  }

  /** The UART part of mmu_init; `uart` 0 means no console address was found. */
  function WireUart(mem: Memory, b: Boot, uart: nat): Memory {
    var base := uart / BLOCK_1G * BLOCK_1G;
    var l0i, l1i, l2i := L0Index(base), L1Index(base), L2Index(uart);
    if uart == 0 then mem
    else if l0i == 0 && l1i == 1 then Poke(mem, b.l2hi, l2i, DeviceBlock(uart / BLOCK_2M * BLOCK_2M))
    else if l0i == 0 then Poke(mem, b.l2, l2i, DeviceBlock(uart / BLOCK_2M * BLOCK_2M))
    else
      var m := Poke(mem, b.l0, l0i, TableDesc(b.l1uart));
      Poke(m, b.l1uart, l1i, DeviceBlock(base))
  }

  ghost predicate BootFrames(mem: Memory, b: Boot) {
    && Frame(b.l0) && Frame(b.l1) && Frame(b.l2) && Frame(b.l2hi) && Frame(b.l1uart)
    && b.l0 in mem && b.l1 in mem && b.l2 in mem && b.l2hi in mem && b.l1uart in mem
    && b.l0 !in {b.l1, b.l2, b.l2hi, b.l1uart} && b.l1 !in {b.l2, b.l2hi, b.l1uart}
    && b.l2 !in {b.l2hi, b.l1uart} && b.l2hi != b.l1uart
  }

  /** A block base below the physical limit is itself a frame boundary. */
  lemma BaseFits(k: nat, size: nat, va: nat)
    requires size == BLOCK_1G || size == BLOCK_2M
    requires va < PHYS_LIMIT && k == va / size
    ensures Fits(k * size, 0) && k * size + va % size == va && k * size / size * size == k * size
  {
    DivMod(va, size);
    var q := if size == BLOCK_1G then 0x4_0000 else 0x200;
    assert size == PAGE_SIZE * q;
    assert k * size == PAGE_SIZE * (q * k) by {
      assert (PAGE_SIZE * q) * k == PAGE_SIZE * (q * k);
    }
    DivModUnique(k * size, PAGE_SIZE, q * k, 0);
    DivModUnique(k * size, size, k, 0);
  }

  lemma GigabyteIndices(va: nat)
    requires va < PHYS_LIMIT
    ensures L0Index(va / BLOCK_1G * BLOCK_1G) == L0Index(va)
    ensures L1Index(va / BLOCK_1G * BLOCK_1G) == L1Index(va)
  {
    var g := va / BLOCK_1G;
    assert g * BLOCK_1G / BLOCK_1G == g;
    assert g * BLOCK_1G / BLOCK_512G == g / 512;
    assert va / BLOCK_512G == g / 512;
  }

  /** Two addresses lie in the same gigabyte exactly when their L0 and L1 indices agree. */
  lemma SameGigabyte(va: nat, va': nat)
    requires va < PHYS_LIMIT && va' < PHYS_LIMIT
    ensures L0Index(va) == L0Index(va') && L1Index(va) == L1Index(va') <==> va / BLOCK_1G == va' / BLOCK_1G
  {
    assert va / BLOCK_512G == va / BLOCK_1G / 512;
    assert va' / BLOCK_512G == va' / BLOCK_1G / 512;
  }

  lemma BlockHits(e: nat, base: nat, size: nat, va: nat, device: bool)
    requires size == BLOCK_1G || size == BLOCK_2M
    requires va < PHYS_LIMIT && base == va / size * size
    requires e == if device then DeviceBlock(base) else NormalBlock(base)
    ensures IsValid(e) && !IsTable(e) && BlockHit(e, size, va) == Hit(va, device, false)
  {
    hide And, Or, DeviceBlock, NormalBlock, IsValid, IsTable, IsDevice, UserAccess, PaOf;
    BaseFits(va / size, size, va);
    if device { DeviceBlockRoundTrip(base); } else { NormalBlockRoundTrip(base); }
  }

  /** After build_identity_map the first 2 GB map to themselves, kernel-only, as Device
      memory exactly in the peripheral window; everything above faults. */
  lemma IdentityMap(mem: Memory, b: Boot, va: nat)
    requires BootFrames(mem, b) && mem[b.l0] == ZeroPage && mem[b.l1] == ZeroPage
    requires va < PHYS_LIMIT
    ensures Walk(BuildIdentity(mem, b), b.l0, va)
         == if va < TWO_GB then Hit(va, PERIPH_BASE <= va < PERIPH_END, false) else Fault
  {
    hide IsTable, IsValid, PaOf, TableDesc, DeviceBlock, NormalBlock, BlockHit, L0Index, L1Index, L2Index, WalkL3;
    var m := BuildIdentity(mem, b);
    IndexFacts(va);
    TableDescRoundTrip(b.l1);
    TableDescRoundTrip(b.l2);
    TableDescRoundTrip(b.l2hi);
    ZeroInvalid();
    if va < TWO_GB {
      var base := va / BLOCK_2M * BLOCK_2M;
      BlockHits(if va < RAM_BASE then LowEntry(L2Index(va)) else HighEntry(L2Index(va)), base, BLOCK_2M, va,
                PERIPH_BASE <= va < PERIPH_END);
    } else {
      assert !IsTable(Peek(m, b.l0)[L0Index(va)]) || L0Index(va) == 0;
    }
  }

  lemma IndexFacts(va: nat)
    requires va < PHYS_LIMIT
    ensures L0Index(va) == 0 <==> va < BLOCK_512G
    ensures va < BLOCK_512G ==> L1Index(va) == va / BLOCK_1G
    ensures va < RAM_BASE ==> L1Index(va) == 0 && L2Index(va) * BLOCK_2M == va / BLOCK_2M * BLOCK_2M
    ensures RAM_BASE <= va < TWO_GB ==>
              L1Index(va) == 1 && RAM_BASE + L2Index(va) * BLOCK_2M == va / BLOCK_2M * BLOCK_2M
    ensures TWO_GB <= va < BLOCK_512G ==> L1Index(va) >= 2
    ensures PERIPH_BASE <= va / BLOCK_2M * BLOCK_2M < PERIPH_END <==> PERIPH_BASE <= va < PERIPH_END
  {
    assert RAM_BASE <= va < TWO_GB ==> 512 <= va / BLOCK_2M < 1024;
  }

  /** mmu_init makes the console UART reachable as Device memory exactly when it lies
      below 2 GB or at or above 512 GB.  In between, the code patches an L2 slot of the low
      gigabyte instead: the UART still faults, and that slot stops being an identity map. */
  lemma UartReachable(mem: Memory, b: Boot, uart: nat)
    requires BootFrames(mem, b) && mem[b.l0] == ZeroPage && mem[b.l1] == ZeroPage
    requires 0 < uart < PHYS_LIMIT
    ensures var m := WireUart(BuildIdentity(mem, b), b, uart);
            Walk(m, b.l0, uart) == Hit(uart, true, false) <==> !(TWO_GB <= uart < BLOCK_512G)
  {
    hide IsTable, IsValid, PaOf, TableDesc, DeviceBlock, NormalBlock, BlockHit, L0Index, L1Index, L2Index, WalkL3;
    var m := WireUart(BuildIdentity(mem, b), b, uart);
    IndexFacts(uart);
    GigabyteIndices(uart);
    TableDescRoundTrip(b.l1);
    TableDescRoundTrip(b.l2);
    TableDescRoundTrip(b.l2hi);
    TableDescRoundTrip(b.l1uart);
    ZeroInvalid();
    if uart < TWO_GB {
      var base := uart / BLOCK_2M * BLOCK_2M;
      BlockHits(DeviceBlock(base), base, BLOCK_2M, uart, true);
    } else if BLOCK_512G <= uart {
      var base := uart / BLOCK_1G * BLOCK_1G;
      BlockHits(DeviceBlock(base), base, BLOCK_1G, uart, true);
    }
  }

  lemma UartClobbersLowSlot(mem: Memory, b: Boot, uart: nat, va: nat)
    requires BootFrames(mem, b) && mem[b.l0] == ZeroPage && mem[b.l1] == ZeroPage
    requires TWO_GB <= uart < BLOCK_512G && va < RAM_BASE && L2Index(va) == L2Index(uart)
    ensures var m := WireUart(BuildIdentity(mem, b), b, uart);
            && Walk(m, b.l0, va) == Hit(uart / BLOCK_2M * BLOCK_2M + va % BLOCK_2M, true, false)
            && Walk(m, b.l0, va).pa != va
  {
    hide IsTable, IsValid, PaOf, TableDesc, DeviceBlock, NormalBlock, L0Index, L1Index, L2Index, WalkL3, IsDevice,
        UserAccess;
    IndexFacts(uart);
    IndexFacts(va);
    GigabyteIndices(uart);
    TableDescRoundTrip(b.l1);
    TableDescRoundTrip(b.l2);
    BaseFits(uart / BLOCK_2M, BLOCK_2M, uart);
    DeviceBlockRoundTrip(uart / BLOCK_2M * BLOCK_2M);
  }

  // ---- 1 GB device windows ----

  /** The address bits of a table descriptor, `desc & ~0xfff`. */
  function TableOf(e: nat): nat { And(e, 0xffff_ffff_ffff_f000) }

  lemma TableOfDesc(pa: nat)
    requires Fits(pa, 0)
    ensures TableOf(TableDesc(pa)) == pa
  {
    hide Or, And, Pow2;
    TableDescIs(pa);
    var e := Word(pa, 3, 0);
    Powers();
    AndField(e, 64, 12);
    WordRemainders(pa, 3, 0);
  }

  /** mmu_map_device_1gb */
  function MapDevice(s: Pool, b: Boot, va: nat): Pool {
    var base := va / BLOCK_1G * BLOCK_1G;
    var l0i, l1i := L0Index(base), L1Index(base);
    if l0i == 0 then s.(mem := Poke(s.mem, b.l1, l1i, DeviceBlock(base)))
    else
      var e := Peek(s.mem, b.l0)[l0i];
      if IsValid(e) then s.(mem := Poke(s.mem, TableOf(e), l1i, DeviceBlock(base)))
      else
        var (s1, l1) := Alloc(s);
        if l1 == 0 then s1
        else s1.(mem := Poke(Poke(s1.mem, b.l0, l0i, TableDesc(l1)), l1, l1i, DeviceBlock(base)))
  }

  function BootL0(mem: Memory, b: Boot, i: nat): nat
    requires i < ENTRIES
  {
    Peek(mem, b.l0)[i]
  }

  /** The high L1 tables: each used L0 slot above 0 has a table of its own. */
  ghost predicate HighL1s(mem: Memory, b: Boot) {
    && (forall i :: 0 < i < ENTRIES && IsValid(BootL0(mem, b, i)) ==> HighL1(mem, b, BootL0(mem, b, i)))
    && (forall i, j :: 0 < i < j < ENTRIES && IsValid(BootL0(mem, b, i)) && IsValid(BootL0(mem, b, j)) ==>
          PaOf(BootL0(mem, b, i)) != PaOf(BootL0(mem, b, j)))
  }

  ghost predicate HighL1(mem: Memory, b: Boot, e: nat) {
    && e == TableDesc(PaOf(e)) && IsTable(e)
    && Frame(PaOf(e)) && PaOf(e) in mem && PaOf(e) !in {b.l0, b.l1, b.l2, b.l2hi}
    && forall k :: 0 <= k < ENTRIES ==> !IsTable(mem[PaOf(e)][k])
  }

  /** The boot tree as platform initialisation leaves it. */
  ghost predicate BootTree(mem: Memory, b: Boot) {
    && BootFrames(mem, b) && HighL1s(mem, b)
    && BootL0(mem, b, 0) == TableDesc(b.l1)
    && mem[b.l1][0] == TableDesc(b.l2) && mem[b.l1][1] == TableDesc(b.l2hi)
    && (forall i :: 2 <= i < ENTRIES ==> !IsTable(mem[b.l1][i]))
    && (forall i :: 0 <= i < ENTRIES ==> !IsTable(mem[b.l2][i]) && !IsTable(mem[b.l2hi][i]))
  }

  /** No table of the tree is on the free list. */
  ghost predicate TreeOffList(mem: Memory, b: Boot, free: seq<nat>) {
    && b.l0 !in free && b.l1 !in free && b.l2 !in free && b.l2hi !in free && b.l1uart !in free
    && forall i :: 0 < i < ENTRIES && IsValid(BootL0(mem, b, i)) ==> PaOf(BootL0(mem, b, i)) !in free
  }

  ghost predicate OutOfPages(s: Pool, b: Boot, va: nat) {
    L0Index(va) != 0 && !IsValid(BootL0(s.mem, b, L0Index(va))) && s.freelist == 0
  }

  /** A change confined to one entry of the L1 covering `va` shows only in that gigabyte. */
  lemma OneGigabyte(mem: Memory, mem': Memory, b: Boot, va: nat, va': nat, l1: nat)
    requires BootTree(mem, b) && va < PHYS_LIMIT && va' < PHYS_LIMIT
    requires var e0 := BootL0(mem, b, L0Index(va)); IsValid(e0) && PaOf(e0) == l1
    requires l1 in mem && mem' == mem[l1 := mem[l1][L1Index(va) := DeviceBlock(va / BLOCK_1G * BLOCK_1G)]]
    requires L0Index(va) == 0 ==> l1 == b.l1
    ensures Walk(mem', b.l0, va') == if va' / BLOCK_1G == va / BLOCK_1G then Hit(va', true, false)
              else Walk(mem, b.l0, va')
  {
    hide IsTable, IsValid, PaOf, TableDesc, DeviceBlock, BlockHit, L0Index, L1Index, L2Index, WalkL3;
    SameGigabyte(va, va');
    var base := va / BLOCK_1G * BLOCK_1G;
    TableDescRoundTrip(b.l1);
    TableDescRoundTrip(b.l2);
    TableDescRoundTrip(b.l2hi);
    var i := L0Index(va');
    assert BootL0(mem', b, i) == BootL0(mem, b, i);
    if va' / BLOCK_1G == va / BLOCK_1G {
      BlockHits(DeviceBlock(base), base, BLOCK_1G, va', true);
      if i != 0 { assert HighL1(mem, b, BootL0(mem, b, i)); }
    } else if i != 0 && IsTable(BootL0(mem, b, i)) {
      TableValid(BootL0(mem, b, i));
      assert HighL1(mem, b, BootL0(mem, b, i));
    }
  }

  /** Hanging a zeroed L1 under an unused L0 slot changes no translation. */
  lemma FreshL1(mem: Memory, b: Boot, i: nat, p: nat, va: nat)
    requires BootTree(mem, b) && 0 < i < ENTRIES && !IsValid(BootL0(mem, b, i)) && va < PHYS_LIMIT
    requires Frame(p) && p in mem && p !in {b.l0, b.l1, b.l2, b.l2hi}
    requires forall k :: 0 < k < ENTRIES && IsValid(BootL0(mem, b, k)) ==> PaOf(BootL0(mem, b, k)) != p
    ensures var mem' := mem[p := ZeroPage][b.l0 := mem[b.l0][i := TableDesc(p)]];
            BootTree(mem', b) && Walk(mem', b.l0, va) == Walk(mem, b.l0, va)
  {
    hide IsTable, IsValid, PaOf, TableDesc, BlockHit, L0Index, L1Index, L2Index, WalkL3;
    var mem' := mem[p := ZeroPage][b.l0 := mem[b.l0][i := TableDesc(p)]];
    TableDescRoundTrip(p);
    TableDescRoundTrip(b.l1);
    TableDescRoundTrip(b.l2);
    TableDescRoundTrip(b.l2hi);
    ZeroInvalid();
    forall k | 0 < k < ENTRIES && IsValid(BootL0(mem', b, k)) ensures HighL1(mem', b, BootL0(mem', b, k)) {
      if k != i { assert HighL1(mem, b, BootL0(mem, b, k)); }
    }
    assert forall k :: 0 <= k < ENTRIES && k != i ==> BootL0(mem', b, k) == BootL0(mem, b, k);
    assert BootL0(mem', b, i) == TableDesc(p);
    assert HighL1s(mem', b);
    assert BootTree(mem', b);
    if L0Index(va) == i {
      assert !IsTable(BootL0(mem, b, i)) by { if IsTable(BootL0(mem, b, i)) { TableValid(BootL0(mem, b, i)); } }
    } else if IsTable(BootL0(mem, b, L0Index(va))) {
      TableValid(BootL0(mem, b, L0Index(va)));
    }
  }

  lemma TreeKept(mem: Memory, b: Boot, va: nat, l1: nat)
    requires BootTree(mem, b) && TWO_GB <= va < PHYS_LIMIT
    requires var e0 := BootL0(mem, b, L0Index(va)); IsValid(e0) && PaOf(e0) == l1
    requires l1 in mem && (L0Index(va) == 0 ==> l1 == b.l1)
    ensures BootTree(mem[l1 := mem[l1][L1Index(va) := DeviceBlock(va / BLOCK_1G * BLOCK_1G)]], b)
  {
    hide IsTable, IsValid, PaOf, TableDesc, DeviceBlock, L0Index, L1Index;
    var base := va / BLOCK_1G * BLOCK_1G;
    var mem' := mem[l1 := mem[l1][L1Index(va) := DeviceBlock(base)]];
    IndexFacts(va);
    BaseFits(va / BLOCK_1G, BLOCK_1G, va);
    DeviceBlockRoundTrip(base);
    assert mem'[b.l0] == mem[b.l0];
    assert forall k :: 0 <= k < ENTRIES ==> BootL0(mem', b, k) == BootL0(mem, b, k);
    forall k | 0 < k < ENTRIES && IsValid(BootL0(mem', b, k)) ensures HighL1(mem', b, BootL0(mem', b, k)) {
      assert HighL1(mem, b, BootL0(mem, b, k));
    }
  }

  lemma DeviceStep(mem: Memory, b: Boot, va: nat, l1: nat)
    requires BootTree(mem, b) && va < PHYS_LIMIT
    requires var e0 := BootL0(mem, b, L0Index(va)); IsValid(e0) && PaOf(e0) == l1
    requires l1 in mem && (L0Index(va) == 0 ==> l1 == b.l1)
    ensures var mem' := mem[l1 := mem[l1][L1Index(va) := DeviceBlock(va / BLOCK_1G * BLOCK_1G)]];
            && (forall va': nat | va' < PHYS_LIMIT ::
                  Walk(mem', b.l0, va')
                  == if va' / BLOCK_1G == va / BLOCK_1G then Hit(va', true, false) else Walk(mem, b.l0, va'))
            && (TWO_GB <= va ==> BootTree(mem', b))
  {
    hide BootTree, Walk, L0Index, L1Index, DeviceBlock, IsValid, PaOf;
    var mem' := mem[l1 := mem[l1][L1Index(va) := DeviceBlock(va / BLOCK_1G * BLOCK_1G)]];
    forall va': nat | va' < PHYS_LIMIT
      ensures Walk(mem', b.l0, va')
           == if va' / BLOCK_1G == va / BLOCK_1G then Hit(va', true, false) else Walk(mem, b.l0, va')
    {
      OneGigabyte(mem, mem', b, va, va', l1);
    }
    if TWO_GB <= va { TreeKept(mem, b, va, l1); }
  }

  lemma PokeKeepsList(s: Pool, free: seq<nat>, p: nat, i: nat, v: nat)
    requires FreeIs(s, free) && p !in free && i < WORDS
    ensures FreeIs(s.(mem := Poke(s.mem, p, i, v)), free)
  {
    ListMembers(s.mem, s.freelist, free);
    ListFrame(s.mem, Poke(s.mem, p, i, v), s.freelist, free);
  }

  /** The free list after a window: one page shorter when a new L1 was needed. */
  ghost function WindowFree(s: Pool, b: Boot, free: seq<nat>, va: nat): seq<nat> {
    if L0Index(va) != 0 && !IsValid(BootL0(s.mem, b, L0Index(va))) && free != [] then free[1..] else free
  }

  /** A window takes at most the front page off the list, and no table is left on it. */
  lemma WindowKeepsList(s: Pool, b: Boot, free: seq<nat>, va: nat)
    requires BootTree(s.mem, b) && FreeIs(s, free) && TreeOffList(s.mem, b, free) && va < PHYS_LIMIT
    requires forall p :: p in free ==> Frame(p)
    ensures var s', free' := MapDevice(s, b, va), WindowFree(s, b, free, va);
            FreeIs(s', free') && TreeOffList(s'.mem, b, free') && s'.mem.Keys == s.mem.Keys
  {
    hide L0Index, L1Index, DeviceBlock, TableDesc, IsValid, PaOf, IsTable, TableOf, FreeIs;
    GigabyteIndices(va);
    var i, k, block := L0Index(va), L1Index(va), DeviceBlock(va / BLOCK_1G * BLOCK_1G);
    var e := BootL0(s.mem, b, i);
    if i == 0 {
      PokeKeepsList(s, free, b.l1, k, block);
      var m' := Poke(s.mem, b.l1, k, block);
      assert forall j :: 0 <= j < ENTRIES ==> BootL0(m', b, j) == BootL0(s.mem, b, j);
    } else if IsValid(e) {
      assert HighL1(s.mem, b, e);
      TableOfDesc(PaOf(e));
      PokeKeepsList(s, free, PaOf(e), k, block);
      var m' := Poke(s.mem, PaOf(e), k, block);
      assert forall j :: 0 <= j < ENTRIES ==> BootL0(m', b, j) == BootL0(s.mem, b, j);
    } else {
      AllocPops(s, free);
      if free != [] {
        var (s1, p) := Alloc(s);
        assert p in free;
        FirstNotInRest(s, free);
        TableDescRoundTrip(p);
        var s2 := s1.(mem := Poke(s1.mem, b.l0, i, TableDesc(p)));
        PokeKeepsList(s1, free[1..], b.l0, i, TableDesc(p));
        PokeKeepsList(s2, free[1..], p, k, block);
        assert forall j :: 0 <= j < ENTRIES && j != i ==> BootL0(s2.mem, b, j) == BootL0(s.mem, b, j);
        assert BootL0(s2.mem, b, i) == TableDesc(p);
        var m3 := Poke(s2.mem, p, k, block);
        assert forall j :: 0 <= j < ENTRIES ==> BootL0(m3, b, j) == BootL0(s2.mem, b, j);
        assert forall q :: q in free[1..] ==> q in free;
      }
    }
  }

  lemma FirstNotInRest(s: Pool, free: seq<nat>)
    requires FreeIs(s, free) && free != []
    ensures free[0] !in free[1..]
  {
  }

  /** mmu_map_device_1gb turns the gigabyte of `va` into an identity Device window for the
      kernel and changes no other translation; out of pages, it changes nothing at all. What
      it needs holds again afterwards, for the next window. */
  lemma DeviceWindow(s: Pool, b: Boot, free: seq<nat>, va: nat)
    requires BootTree(s.mem, b) && FreeIs(s, free) && TreeOffList(s.mem, b, free) && va < PHYS_LIMIT
    requires forall p :: p in free ==> Frame(p)
    ensures var s', free' := MapDevice(s, b, va), WindowFree(s, b, free, va);
            && FreeIs(s', free') && TreeOffList(s'.mem, b, free') && s'.mem.Keys == s.mem.Keys
            && (TWO_GB <= va ==> BootTree(s'.mem, b))
            && (forall va': nat | va' < PHYS_LIMIT ::
                  Walk(s'.mem, b.l0, va')
                  == if va' / BLOCK_1G == va / BLOCK_1G && !OutOfPages(s, b, va) then Hit(va', true, false)
                     else Walk(s.mem, b.l0, va'))
  {
    hide Walk, L0Index, L1Index, DeviceBlock, TableDesc, IsValid, PaOf, IsTable, TableOf;
    WindowKeepsList(s, b, free, va);
    WindowMaps(s, b, free, va);
  }

  lemma WindowMaps(s: Pool, b: Boot, free: seq<nat>, va: nat)
    requires BootTree(s.mem, b) && FreeIs(s, free) && TreeOffList(s.mem, b, free) && va < PHYS_LIMIT
    requires forall p :: p in free ==> Frame(p)
    ensures var s' := MapDevice(s, b, va);
            && (TWO_GB <= va ==> BootTree(s'.mem, b))
            && (forall va': nat | va' < PHYS_LIMIT ::
                  Walk(s'.mem, b.l0, va')
                  == if va' / BLOCK_1G == va / BLOCK_1G && !OutOfPages(s, b, va) then Hit(va', true, false)
                     else Walk(s.mem, b.l0, va'))
  {
    hide Walk, L0Index, L1Index, DeviceBlock, TableDesc, IsValid, PaOf, IsTable, TableOf;
    GigabyteIndices(va);
    var i := L0Index(va);
    var e := BootL0(s.mem, b, i);
    if i == 0 {
      TableDescRoundTrip(b.l1);
      DeviceStep(s.mem, b, va, b.l1);
    } else if IsValid(e) {
      assert HighL1(s.mem, b, e);
      TableOfDesc(PaOf(e));
      DeviceStep(s.mem, b, va, PaOf(e));
    } else {
      AllocPops(s, free);
      if free != [] {
        var (s1, p) := Alloc(s);
        assert p in free;
        var mem1 := s.mem[p := ZeroPage][b.l0 := s.mem[b.l0][i := TableDesc(p)]];
        assert Poke(s1.mem, b.l0, i, TableDesc(p)) == mem1;
        forall va': nat | va' < PHYS_LIMIT ensures Walk(mem1, b.l0, va') == Walk(s.mem, b.l0, va') {
          FreshL1(s.mem, b, i, p, va');
        }
        FreshL1(s.mem, b, i, p, 0);
        TableDescRoundTrip(p);
        DeviceStep(mem1, b, va, p);
      }
    }
  }

  /** The freshly built identity map is such a tree. */
  lemma IdentityIsTree(mem: Memory, b: Boot)
    requires BootFrames(mem, b) && mem[b.l0] == ZeroPage && mem[b.l1] == ZeroPage
    ensures BootTree(BuildIdentity(mem, b), b)
  {
    hide IsTable, IsValid, PaOf, TableDesc, DeviceBlock, NormalBlock;
    var m := BuildIdentity(mem, b);
    ZeroInvalid();
    forall i | 0 <= i < ENTRIES ensures !IsTable(m[b.l2][i]) && !IsTable(m[b.l2hi][i]) {
      var va := i * BLOCK_2M;
      assert va < RAM_BASE && va / BLOCK_2M == i;
      BlockHits(LowEntry(i), va, BLOCK_2M, va, PERIPH_BASE <= va < PERIPH_END);
      assert (RAM_BASE + va) / BLOCK_2M * BLOCK_2M == RAM_BASE + va;
      BlockHits(HighEntry(i), RAM_BASE + va, BLOCK_2M, RAM_BASE + va, false);
    }
  }

  /** No table of the tree is among `pages`. */
  ghost predicate TreeOff(mem: Memory, b: Boot, pages: set<nat>) {
    && b.l0 !in pages && b.l1 !in pages && b.l2 !in pages && b.l2hi !in pages && b.l1uart !in pages
    && forall i :: 0 < i < ENTRIES && IsValid(BootL0(mem, b, i)) ==> PaOf(BootL0(mem, b, i)) !in pages
  }

  /** A boot tree outside the allocator's pages meets what the process tables rely on. */
  lemma TreeIsClosed(mem: Memory, b: Boot, pages: set<nat>)
    requires BootTree(mem, b) && TreeOff(mem, b, pages)
    ensures BootLinked(mem, b) && BootClosed(mem, b, pages)
  {
    hide IsTable, IsValid, PaOf, TableDesc;
    TableDescRoundTrip(b.l1);
    TableDescRoundTrip(b.l2);
    TableDescRoundTrip(b.l2hi);
    forall i | 0 <= i < ENTRIES && IsTable(Peek(mem, b.l0)[i])
      ensures L1Closed(mem, PaOf(Peek(mem, b.l0)[i]), pages)
    {
      if i != 0 {
        TableValid(BootL0(mem, b, i));
        assert HighL1(mem, b, BootL0(mem, b, i));
      }
    }
  }

  /** Changes to the allocator's pages leave the tree as it is. */
  lemma TreeUntouched(mem: Memory, mem': Memory, b: Boot, pages: set<nat>)
    requires BootTree(mem, b) && TreeOff(mem, b, pages) && mem'.Keys == mem.Keys && Untouched(mem, mem', pages)
    ensures BootTree(mem', b) && TreeOff(mem', b, pages)
  {
    hide IsTable, IsValid, PaOf, TableDesc;
    assert forall k :: 0 <= k < ENTRIES ==> BootL0(mem', b, k) == BootL0(mem, b, k);
    assert Peek(mem', b.l1) == Peek(mem, b.l1) && Peek(mem', b.l2) == Peek(mem, b.l2);
    assert Peek(mem', b.l2hi) == Peek(mem, b.l2hi);
    forall k | 0 < k < ENTRIES && IsValid(BootL0(mem', b, k)) ensures HighL1(mem', b, BootL0(mem', b, k)) {
      assert HighL1(mem, b, BootL0(mem, b, k));
      assert Peek(mem', PaOf(BootL0(mem, b, k))) == Peek(mem, PaOf(BootL0(mem, b, k)));
    }
  }

  /** The L0 entries after a window: one new table at most, and only when one was taken off
      the list. */
  lemma WindowEntries(s: Pool, b: Boot, free: seq<nat>, va: nat, j: nat)
    requires BootTree(s.mem, b) && FreeIs(s, free) && TreeOffList(s.mem, b, free) && va < PHYS_LIMIT && j < ENTRIES
    ensures BootL0(MapDevice(s, b, va).mem, b, j) ==
            if j == L0Index(va) && WindowFree(s, b, free, va) != free then TableDesc(free[0]) else BootL0(s.mem, b, j)
    ensures WindowFree(s, b, free, va) != free ==> free != [] && WindowFree(s, b, free, va) == free[1..]
  {
    hide L0Index, L1Index, DeviceBlock, TableDesc, IsValid, PaOf, IsTable, TableOf, FreeIs;
    GigabyteIndices(va);
    var i := L0Index(va);
    var e := BootL0(s.mem, b, i);
    if i != 0 && IsValid(e) {
      assert HighL1(s.mem, b, e);
      TableOfDesc(PaOf(e));
    } else if i != 0 {
      AllocPops(s, free);
      assert free != [] ==> free[0] in free && free[1..] != free;
    }
  }

  // ---- from power-on to the first process ----

  /** The page frames of the boot tables, as the loader leaves them. */
  ghost predicate Fresh(mem: Memory, b: Boot) {
    BootFrames(mem, b) && mem[b.l0] == ZeroPage && mem[b.l1] == ZeroPage && mem[b.l1uart] == ZeroPage
  }

  /** mmu_init leaves a boot tree, wherever the UART is. */
  lemma UartKeepsTree(mem: Memory, b: Boot, uart: nat)
    requires Fresh(mem, b) && uart < PHYS_LIMIT
    ensures BootTree(WireUart(BuildIdentity(mem, b), b, uart), b)
    ensures forall k :: 0 < k < ENTRIES && IsValid(BootL0(WireUart(BuildIdentity(mem, b), b, uart), b, k)) ==>
              PaOf(BootL0(WireUart(BuildIdentity(mem, b), b, uart), b, k)) == b.l1uart
  {
    hide IsTable, IsValid, PaOf, TableDesc, DeviceBlock, LowEntry, HighEntry, L0Index, L1Index, L2Index;
    var m := BuildIdentity(mem, b);
    IdentityIsTree(mem, b);
    ZeroInvalid();
    assert forall k :: 0 < k < ENTRIES ==> BootL0(m, b, k) == 0;
    if uart != 0 {
      GigabyteIndices(uart);
      IndexFacts(uart);
      if L0Index(uart) == 0 {
        BaseFits(uart / BLOCK_2M, BLOCK_2M, uart);
        DeviceBlockRoundTrip(uart / BLOCK_2M * BLOCK_2M);
        LowUart(m, b, L2Index(uart), DeviceBlock(uart / BLOCK_2M * BLOCK_2M), b.l2);
        LowUart(m, b, L2Index(uart), DeviceBlock(uart / BLOCK_2M * BLOCK_2M), b.l2hi);
      } else {
        var i := L0Index(uart);
        FreshL1(m, b, i, b.l1uart, 0);
        var m1: Memory := m[b.l1uart := ZeroPage][b.l0 := m[b.l0][i := TableDesc(b.l1uart)]];
        assert m1 == Poke(m, b.l0, i, TableDesc(b.l1uart));
        TableDescRoundTrip(b.l1uart);
        assert BootL0(m1, b, i) == TableDesc(b.l1uart);
        TreeKept(m1, b, uart, b.l1uart);
      }
    }
  }

  /** A block entry in one of the two static L2 tables keeps the tree. */
  lemma LowUart(m: Memory, b: Boot, k: nat, e: nat, l2: nat)
    requires BootTree(m, b) && k < ENTRIES && !IsTable(e) && (l2 == b.l2 || l2 == b.l2hi)
    ensures BootTree(Poke(m, l2, k, e), b)
  {
    hide IsTable, IsValid, PaOf, TableDesc;
    var m' := Poke(m, l2, k, e);
    assert forall j :: 0 <= j < ENTRIES ==> BootL0(m', b, j) == BootL0(m, b, j);
    forall j | 0 < j < ENTRIES && IsValid(BootL0(m', b, j)) ensures HighL1(m', b, BootL0(m', b, j)) {
      assert HighL1(m, b, BootL0(m, b, j));
    }
  }

  /** Device windows mapped one after another. */
  function MapDevices(s: Pool, b: Boot, vas: seq<nat>): Pool
    decreases |vas|
  {
    if vas == [] then s else MapDevices(MapDevice(s, b, vas[0]), b, vas[1..])
  }

  ghost function WindowsFree(s: Pool, b: Boot, free: seq<nat>, vas: seq<nat>): seq<nat>
    decreases |vas|
  {
    if vas == [] then free
    else WindowsFree(MapDevice(s, b, vas[0]), b, WindowFree(s, b, free, vas[0]), vas[1..])
  }

  ghost predicate Covered(vas: seq<nat>, va: nat) {
    exists k :: 0 <= k < |vas| && vas[k] / BLOCK_1G == va / BLOCK_1G
  }

  ghost predicate Windows(vas: seq<nat>) { forall k :: 0 <= k < |vas| ==> TWO_GB <= vas[k] < PHYS_LIMIT }

  /** Any number of windows: the tree and the free list stand, addresses outside all windows
      translate as before, and with a page for each window every window is mapped. */
  lemma {:induction false} DeviceWindows(s: Pool, b: Boot, free: seq<nat>, vas: seq<nat>)
    requires BootTree(s.mem, b) && FreeIs(s, free) && TreeOffList(s.mem, b, free) && Windows(vas)
    requires forall p :: p in free ==> Frame(p)
    ensures var s', free' := MapDevices(s, b, vas), WindowsFree(s, b, free, vas);
            && BootTree(s'.mem, b) && FreeIs(s', free') && TreeOffList(s'.mem, b, free') && s'.mem.Keys == s.mem.Keys
            && (forall p :: p in free' ==> p in free)
            && forall va: nat | va < PHYS_LIMIT ::
                 if Covered(vas, va) then |vas| <= |free| ==> Walk(s'.mem, b.l0, va) == Hit(va, true, false)
                 else Walk(s'.mem, b.l0, va) == Walk(s.mem, b.l0, va)
    decreases |vas|
  {
    hide BootTree, FreeIs, TreeOffList, Walk, MapDevice, WindowFree, Frame;
    if vas != [] {
      var w := vas[0];
      DeviceWindow(s, b, free, w);
      WindowShrinks(s, b, free, w);
      var s1, free1 := MapDevice(s, b, w), WindowFree(s, b, free, w);
      DeviceWindows(s1, b, free1, vas[1..]);
      forall va: nat | va < PHYS_LIMIT
        ensures var m' := MapDevices(s, b, vas).mem;
                if Covered(vas, va) then |vas| <= |free| ==> Walk(m', b.l0, va) == Hit(va, true, false)
                else Walk(m', b.l0, va) == Walk(s.mem, b.l0, va)
      {
        CoveredFirst(vas, va);
      }
    }
  }

  lemma CoveredFirst(vas: seq<nat>, va: nat)
    requires vas != []
    ensures Covered(vas, va) <==> vas[0] / BLOCK_1G == va / BLOCK_1G || Covered(vas[1..], va)
  {
    if Covered(vas[1..], va) {
      var k :| 0 <= k < |vas[1..]| && vas[1..][k] / BLOCK_1G == va / BLOCK_1G;
      assert vas[k + 1] / BLOCK_1G == va / BLOCK_1G;
    }
    if Covered(vas, va) && vas[0] / BLOCK_1G != va / BLOCK_1G {
      var k :| 0 <= k < |vas| && vas[k] / BLOCK_1G == va / BLOCK_1G;
      assert vas[1..][k - 1] / BLOCK_1G == va / BLOCK_1G;
    }
  }

  lemma WindowShrinks(s: Pool, b: Boot, free: seq<nat>, va: nat)
    requires FreeIs(s, free)
    ensures var free' := WindowFree(s, b, free, va);
            && |free| - 1 <= |free'| <= |free| && (forall p :: p in free' ==> p in free)
            && (OutOfPages(s, b, va) ==> free == [])
  {
    ListMembers(s.mem, s.freelist, free);
  }
}
