/** The hardware's four-level table walk, seen from a process and from the boot tables. */
module PageWalk {
  import opened Descriptors
  import opened Pmm
  import opened PageTables
  import opened PageOwnership
  import opened PageLifecycle
  import opened PageRuns
  import opened PageTranslation

  /** Outcome of a stage-1 walk: a fault, or an output address with its attributes. */
  datatype Reach = Fault | Hit(pa: nat, device: bool, user: bool)

  function BlockHit(e: nat, size: nat, va: nat): Reach
    requires size > 0
  {
    Hit(PaOf(e) / size * size + va % size, IsDevice(e), UserAccess(e))
  }

  function WalkL3(mem: Memory, l3: nat, va: nat): Reach {
    var e := Peek(mem, l3)[L3Index(va)];
    if IsTable(e) then Hit(PaOf(e) + va % PAGE_SIZE, IsDevice(e), UserAccess(e)) else Fault
  }

  function WalkL2(mem: Memory, l2: nat, va: nat): Reach {
    var e := Peek(mem, l2)[L2Index(va)];
    if !IsValid(e) then Fault
    else if IsTable(e) then WalkL3(mem, PaOf(e), va) else BlockHit(e, BLOCK_2M, va)
  }

  function WalkL1(mem: Memory, l1: nat, va: nat): Reach {
    var e := Peek(mem, l1)[L1Index(va)];
    if !IsValid(e) then Fault
    else if IsTable(e) then WalkL2(mem, PaOf(e), va) else BlockHit(e, BLOCK_1G, va)
  }

  function Walk(mem: Memory, l0: nat, va: nat): Reach {
    var e := Peek(mem, l0)[L0Index(va)];
    if IsTable(e) then WalkL1(mem, PaOf(e), va) else Fault
  }

  /** The boot tables are chained at entry 0: L0 -> L1 -> L2. */
  ghost predicate BootLinked(mem: Memory, b: Boot) {
    && Fits(b.l1, 0) && Fits(b.l2, 0)
    && Peek(mem, b.l0)[0] == TableDesc(b.l1)
    && Peek(mem, b.l1)[0] == TableDesc(b.l2)
  }

  lemma HighIndices(va: nat)
    requires USER_LIMIT <= va < PHYS_LIMIT
    ensures L0Index(va) != 0 || L1Index(va) != 0
  {
    assert va / BLOCK_512G < 512;
    if va / BLOCK_512G == 0 {
      assert 1 <= va / BLOCK_1G < 512;
    }
  }

  lemma TableFits(s: Sys, free: seq<nat>, owner: map<nat, Place>, id: nat)
    requires Inv(s, free, owner) && id in s.vms
    ensures Fits(s.vms[id].l1, 0) && Fits(s.vms[id].l2, 0)
  {
    assert At(s, free, s.vms[id].l1, L1(id)) && At(s, free, s.vms[id].l2, L2(id));
  }

  /** Above the user gigabyte a process sees exactly the boot mapping. */
  lemma WalkAboveUser(s: Sys, free: seq<nat>, owner: map<nat, Place>, id: nat, va: nat)
    requires Inv(s, free, owner) && id in s.vms && BootLinked(s.pool.mem, s.boot)
    requires USER_LIMIT <= va < PHYS_LIMIT
    ensures Walk(s.pool.mem, s.vms[id].l0, va) == Walk(s.pool.mem, s.boot.l0, va)
  {
    hide IsTable, IsValid, PaOf, TableDesc, PageDesc, WalkL2, L0Index, L1Index, BlockHit;
    var vm := s.vms[id];
    assert VmShape(s, id);
    TableFits(s, free, owner, id);
    TableDescRoundTrip(vm.l1);
    TableDescRoundTrip(s.boot.l1);
    HighIndices(va);
  }

  /** Inside the user gigabyte, a 2 MB region never given an L3 table still shows the
      boot mapping. */
  lemma WalkUnpromoted(s: Sys, free: seq<nat>, owner: map<nat, Place>, id: nat, va: nat)
    requires Inv(s, free, owner) && id in s.vms && BootLinked(s.pool.mem, s.boot)
    requires va < USER_LIMIT && !IsTable(L2Entry(s, id, L2Index(va)))
    ensures Walk(s.pool.mem, s.vms[id].l0, va) == Walk(s.pool.mem, s.boot.l0, va)
  {
    hide IsTable, IsValid, PaOf, TableDesc, PageDesc, L0Index, L1Index, L2Index, BlockHit, WalkL3;
    UserPath(s, free, owner, id, va);
    assert VmShape(s, id);
    TableDescRoundTrip(s.boot.l1);
    TableDescRoundTrip(s.boot.l2);
    Indices(va);
  }

  lemma UserPath(s: Sys, free: seq<nat>, owner: map<nat, Place>, id: nat, va: nat)
    requires Inv(s, free, owner) && id in s.vms && va < USER_LIMIT
    ensures Walk(s.pool.mem, s.vms[id].l0, va) == WalkL2(s.pool.mem, s.vms[id].l2, va)
  {
    hide IsTable, IsValid, PaOf, TableDesc, PageDesc, L0Index, L1Index, BlockHit, WalkL2;
    var vm := s.vms[id];
    Indices(va);
    assert VmShape(s, id);
    TableFits(s, free, owner, id);
    TableDescRoundTrip(vm.l1);
    TableDescRoundTrip(vm.l2);
  }

  /** Where an L3 table is installed the hardware and the kernel's software translation
      agree: a mapped page is user-accessible Normal memory at the kernel address, and
      everything else faults. */
  lemma WalkPromoted(s: Sys, free: seq<nat>, owner: map<nat, Place>, id: nat, va: nat)
    requires Inv(s, free, owner) && id in s.vms
    requires va < USER_LIMIT && IsTable(L2Entry(s, id, L2Index(va)))
    ensures Walk(s.pool.mem, s.vms[id].l0, va)
         == if PageOf(va) in UserMap(s, id) then Hit(UserToKernel(s.pool.mem, s.vms[id], va), false, true) else Fault
  {
    hide IsTable, IsValid, PaOf, TableDesc, PageDesc, L0Index, L1Index, L2Index, L3Index, UserMap, IsDevice, UserAccess;
    UserPath(s, free, owner, id, va);
    UserEntryIs(s, free, owner, id, va);
    EntryInMap(s, id, va);
    var i, j := L2Index(va), L3Index(va);
    var e := L3Entry(s, id, i, j);
    assert VmShape(s, id);
    assert IsValid(L2Entry(s, id, i)) by { TableValid(L2Entry(s, id, i)); }
    if IsValid(e) {
      assert At(s, free, PaOf(e), Mapped(id, i, j));
      PageDescRoundTrip(PaOf(e));
    } else {
      assert !IsTable(e) by { if IsTable(e) { TableValid(e); } }
    }
  }

  lemma TableValid(e: nat)
    requires IsTable(e)
    ensures IsValid(e)
  {
  }

  // ---- the boot tables themselves are never written by a run ----

  ghost predicate Untouched(mem: Memory, mem': Memory, enrolled: set<nat>) {
    forall q :: q !in enrolled ==> Peek(mem', q) == Peek(mem, q)
  }

  /** All tables reachable from the boot L0 lie outside the pages of the allocator. */
  ghost predicate BootClosed(mem: Memory, b: Boot, enrolled: set<nat>) {
    && b.l0 !in enrolled
    && (forall i :: 0 <= i < ENTRIES && IsTable(Peek(mem, b.l0)[i]) ==>
        L1Closed(mem, PaOf(Peek(mem, b.l0)[i]), enrolled))
  }

  ghost predicate L1Closed(mem: Memory, l1: nat, enrolled: set<nat>) {
    && l1 !in enrolled
    && (forall j :: 0 <= j < ENTRIES && IsTable(Peek(mem, l1)[j]) ==> L2Closed(mem, PaOf(Peek(mem, l1)[j]), enrolled))
  }

  ghost predicate L2Closed(mem: Memory, l2: nat, enrolled: set<nat>) {
    l2 !in enrolled && forall k :: 0 <= k < ENTRIES ==> !IsTable(Peek(mem, l2)[k])
  }

  lemma BootWalkUntouched(mem: Memory, mem': Memory, b: Boot, enrolled: set<nat>, va: nat)
    requires BootClosed(mem, b, enrolled) && Untouched(mem, mem', enrolled)
    ensures Walk(mem', b.l0, va) == Walk(mem, b.l0, va)
    ensures BootClosed(mem', b, enrolled)
    ensures BootLinked(mem, b) ==> BootLinked(mem', b)
  {
    hide IsTable, IsValid, PaOf, TableDesc, L0Index, L1Index, L2Index, L3Index, BlockHit, WalkL3;
    if BootLinked(mem, b) { TableDescRoundTrip(b.l1); }
  }

  lemma AllocTouches(s: Pool, free: seq<nat>)
    requires FreeIs(s, free)
    ensures var (s', p) := Alloc(s);
            && Untouched(s.mem, s'.mem, SetOf(free))
            && (p != 0 ==> p in free)
            && FreeIs(s', if free == [] then [] else free[1..])
            && (p == 0 <==> free == [])
  {
    AllocPops(s, free);
  }

  lemma FreeTouches(s: Pool, p: nat, enrolled: set<nat>)
    requires p == 0 || p in enrolled
    ensures Untouched(s.mem, Free(s, p).mem, enrolled)
  {
  }

  lemma CreateTouches(s: Pool, b: Boot, free: seq<nat>)
    requires FreeIs(s, free)
    ensures Untouched(s.mem, Create(s, b).0.mem, SetOf(free))
  {
    hide Alloc, Free, TableDesc, FreeIs, IsList;
    var all := SetOf(free);
    AllocTouches(s, free);
    var (s1, l0) := Alloc(s);
    var free1 := if free == [] then [] else free[1..];
    assert forall p :: p in free1 ==> p in free;
    AllocTouches(s1, free1);
    var (s2, l1) := Alloc(s1);
    var free2 := if free1 == [] then [] else free1[1..];
    assert forall p :: p in free2 ==> p in free1;
    AllocTouches(s2, free2);
    var (s3, l2) := Alloc(s2);
    assert SetOf(free1) <= all && SetOf(free2) <= all;
    assert Untouched(s.mem, s3.mem, all);
    FreeTouches(s3, l0, all);
    FreeTouches(Free(s3, l0), l1, all);
    FreeTouches(Free(Free(s3, l0), l1), l2, all);
  }

  /** No operation writes outside the enrolled pages. */
  lemma StepTouches(s: Sys, free: seq<nat>, owner: map<nat, Place>, op: Op)
    requires Inv(s, free, owner) && Allowed(s, op)
    ensures Untouched(s.pool.mem, Step(s, op).pool.mem, owner.Keys) && Step(s, op).boot == s.boot
  {
    hide IsTable, IsValid, PaOf, TableDesc, PageDesc, L2Index, L3Index, Alloc, Create, Destroy, Free, FreeIs,
        VmShape, BootShape;
    assert SetOf(free) <= owner.Keys by {
      forall p | p in free ensures p in owner { assert At(s, free, p, InFree); }
    }
    AllocTouches(s.pool, free);
    match op
    case GetPage =>
    case PutPage(p) =>
      assert At(s, free, p, Held);
      FreeTouches(s.pool, p, owner.Keys);
    case WriteWord(p, k, v) =>
      if p in s.held {
        assert At(s, free, p, Held);
      } else {
        var id, va :| MappedAt(s, id, va, p);
        MappedOwner(s, free, owner, id, va, p);
      }
    case CreateVm(id) => CreateTouches(s.pool, s.boot, free);
    case MapPage(id, va, pa) =>
      assert At(s, free, s.vms[id].l2, L2(id));
      if IsTable(L2Entry(s, id, L2Index(va))) {
        assert At(s, free, PaOf(L2Entry(s, id, L2Index(va))), L3(id, L2Index(va)));
      }
    case UnmapPage(id, va) =>
      UnmapTouches(s, free, owner, id, va);
    case DestroyVm(id) =>
      var free' := DestroyReturnsAll(s, free, owner, id);
      assert PagesOfVm(owner, id) <= owner.Keys;
  }

  lemma UnmapTouches(s: Sys, free: seq<nat>, owner: map<nat, Place>, id: nat, va: nat)
    requires Inv(s, free, owner) && id in s.vms && va < USER_LIMIT
    ensures Untouched(s.pool.mem, UnmapUser(s.pool, s.vms[id], va).0.mem, owner.Keys)
  {
    hide IsTable, IsValid, PaOf, L2Index, L3Index, Free, FreeIs, VmShape, BootShape;
    var e := UserEntry(s.pool.mem, s.vms[id], va);
    assert !IsValid(0) by { ZeroInvalid(); }
    UserEntryIs(s, free, owner, id, va);
    if IsValid(e) {
      var l3 := PaOf(L2Entry(s, id, L2Index(va)));
      assert At(s, free, l3, L3(id, L2Index(va)));
      assert At(s, free, PaOf(e), Mapped(id, L2Index(va), L3Index(va)));
      var s1 := s.pool.(mem := Poke(s.pool.mem, l3, L3Index(va), 0));
      FreeTouches(s1, PaOf(e), owner.Keys);
    }
  }

  lemma {:induction false} RunTouches(s: Sys, ops: seq<Op>, t: Sys, enrolled: set<nat>)
    requires OwnedOnce(s, enrolled) && Run(s, ops, t)
    ensures Untouched(s.pool.mem, t.pool.mem, enrolled) && t.boot == s.boot
    decreases |ops|
  {
    hide Inv, Allowed, Step;
    if ops != [] {
      var free, owner :| Inv(s, free, owner) && owner.Keys == enrolled;
      StepTouches(s, free, owner, ops[0]);
      var free', owner' := StepKeeps(s, free, owner, ops[0]);
      RunTouches(Step(s, ops[0]), ops[1..], t, enrolled);
    }
  }

  /** The kernel mapping survives every run: from any process, at any later time, each
      address above the user gigabyte, and each 2 MB user region without an L3 table,
      translates exactly as the boot tables did at the start of the run. */
  lemma RunKeepsKernelMapping(s: Sys, ops: seq<Op>, t: Sys, enrolled: set<nat>, id: nat, va: nat)
    requires OwnedOnce(s, enrolled) && Run(s, ops, t) && id in t.vms && va < PHYS_LIMIT
    requires BootClosed(s.pool.mem, s.boot, enrolled) && BootLinked(s.pool.mem, s.boot)
    requires va < USER_LIMIT ==> !IsTable(L2Entry(t, id, L2Index(va)))
    ensures Walk(t.pool.mem, t.vms[id].l0, va) == Walk(s.pool.mem, s.boot.l0, va)
  {
    hide Inv, Walk, IsTable, L2Index, BootClosed, BootLinked, Run;
    RunTouches(s, ops, t, enrolled);
    RunKeepsOwnership(s, ops, t, enrolled);
    BootWalkUntouched(s.pool.mem, t.pool.mem, s.boot, enrolled, va);
    var free, owner :| Inv(t, free, owner) && owner.Keys == enrolled;
    if va < USER_LIMIT {
      WalkUnpromoted(t, free, owner, id, va);
    } else {
      WalkAboveUser(t, free, owner, id, va);
    }
  }
}
