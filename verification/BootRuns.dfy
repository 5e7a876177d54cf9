/** From power-on to running processes: mmu_init, page enrolment and the drivers' device
    windows lead to a state from which every run keeps page ownership and the kernel mapping. */
module BootRuns {
  import opened Descriptors
  import opened Pmm
  import opened PageTables
  import opened PageOwnership
  import opened PageLifecycle
  import opened PageRuns
  import opened PageWalk
  import opened BootTables
  import opened BootMapping

  /** Memory as mmu_init leaves it. */
  function Initialised(mem: Memory, b: Boot, uart: nat): Memory { WireUart(BuildIdentity(mem, b), b, uart) }

  ghost predicate BootPagesOff(b: Boot, free: seq<nat>) {
    b.l0 !in free && b.l1 !in free && b.l2 !in free && b.l2hi !in free && b.l1uart !in free
  }

  /** Page enrolment so far: the list holds frames other than the boot tables, and memory
      outside it is as mmu_init left it. */
  ghost predicate Enrolled(s: Pool, mem: Memory, b: Boot, free: seq<nat>) {
    && FreeIs(s, free) && BootPagesOff(b, free) && (forall p :: p in free ==> Frame(p))
    && s.mem.Keys == mem.Keys && forall p :: p in mem && p !in free ==> s.mem[p] == mem[p]
  }

  /** Any number of ranges, with any bounds, may be enrolled one after another; each puts its
      whole pages on the list. */
  lemma EnrolRange(s: Pool, mem: Memory, b: Boot, free: seq<nat>, start: nat, end: nat)
    requires Enrolled(s, mem, b, free) && start <= PHYS_LIMIT && end <= PHYS_LIMIT
    requires forall p :: Whole(p, start, end) ==> p in mem && p !in free && p !in {b.l0, b.l1, b.l2, b.l2hi, b.l1uart}
    ensures Enrolled(Enrol(s, AlignUp(start), AlignDown(end)), mem, b, RangePages(start, end) + free)
    ensures forall p :: p in RangePages(start, end) <==> Whole(p, start, end)
  {
    hide AlignUp, AlignDown, RangePages, FreeIs, Whole;
    WholePagesIff(start, end);
    AddRangePushes(s, free, start, end);
    forall p | p in RangePages(start, end) ensures Frame(p) { WholeFrame(p, start, end); }
  }

  lemma WholeFrame(p: nat, start: nat, end: nat)
    requires Whole(p, start, end) && end <= PHYS_LIMIT
    ensures Frame(p)
  {
  }

  /** The boot tree does not depend on the enrolled pages. */
  lemma EnrolledTree(s: Pool, mem: Memory, b: Boot, uart: nat, free: seq<nat>)
    requires Fresh(mem, b) && uart < PHYS_LIMIT && Enrolled(s, Initialised(mem, b, uart), b, free)
    ensures BootTree(s.mem, b) && TreeOff(s.mem, b, SetOf(free)) && BootLinked(s.mem, b)
    ensures Untouched(Initialised(mem, b, uart), s.mem, SetOf(free))
    ensures BootClosed(Initialised(mem, b, uart), b, SetOf(free))
  {
    hide IsTable, IsValid, PaOf, TableDesc, BuildIdentity, WireUart, FreeIs;
    var m := Initialised(mem, b, uart);
    UartKeepsTree(mem, b, uart);
    assert forall k :: 0 <= k < ENTRIES ==> BootL0(s.mem, b, k) == BootL0(m, b, k);
    forall k | 0 < k < ENTRIES && IsValid(BootL0(s.mem, b, k)) ensures HighL1(s.mem, b, BootL0(s.mem, b, k)) {
      assert HighL1(m, b, BootL0(m, b, k));
    }
    assert TreeOff(m, b, SetOf(free)) && TreeOff(s.mem, b, SetOf(free));
    TreeIsClosed(m, b, SetOf(free));
    TreeIsClosed(s.mem, b, SetOf(free));
  }

  // ---- platform initialisation: windows mixed with page requests ----

  /** A driver maps its window, or takes, gives back or writes a page. */
  datatype BootOp = Window(va: nat) | Page(op: Op)

  ghost predicate BootAllowed(s: Sys, o: BootOp) {
    match o
    case Window(va) => TWO_GB <= va < PHYS_LIMIT
    case Page(op) => (op.GetPage? || op.PutPage? || op.WriteWord?) && Allowed(s, op)
  }

  ghost function BootStep(s: Sys, o: BootOp): Sys
    requires BootAllowed(s, o)
  {
    match o
    case Window(va) => s.(pool := MapDevice(s.pool, s.boot, va))
    case Page(op) => Step(s, op)
  }

  ghost predicate BootRun(s: Sys, os: seq<BootOp>, t: Sys)
    decreases |os|
  {
    if os == [] then t == s else BootAllowed(s, os[0]) && BootRun(BootStep(s, os[0]), os[1..], t)
  }

  /** The windows of a run that were mapped: those that found a page for a table they needed. */
  ghost function Opened(s: Sys, os: seq<BootOp>, t: Sys): seq<nat>
    requires BootRun(s, os, t)
    decreases |os|
  {
    if os == [] then [] else
    (if os[0].Window? && !OutOfPages(s.pool, s.boot, os[0].va) then [os[0].va] else []) +
    Opened(BootStep(s, os[0]), os[1..], t)
  }

  /** Before the first process: ownership, and a boot tree outside the allocator's pages. */
  ghost predicate BootOk(s: Sys, free: seq<nat>, owner: map<nat, Place>) {
    && s.vms == map[] && Inv(s, free, owner)
    && BootTree(s.pool.mem, s.boot) && TreeOff(s.pool.mem, s.boot, owner.Keys)
  }

  /** The page that became a table is no longer the allocator's. */
  ghost function WindowOwner(s: Pool, b: Boot, free: seq<nat>, owner: map<nat, Place>, va: nat): map<nat, Place> {
    if WindowFree(s, b, free, va) != free && free != [] then owner - {free[0]} else owner
  }

  lemma FreeOwned(s: Sys, free: seq<nat>, owner: map<nat, Place>)
    requires Inv(s, free, owner)
    ensures FreeIs(s.pool, free) && (forall p :: p in free ==> p in owner && owner[p] == InFree && Frame(p))
  {
    hide IsTable, IsValid, PaOf;
    forall p | p in free ensures p in owner && owner[p] == InFree { assert At(s, free, p, InFree); }
  }

  /** A window keeps the boot invariant. */
  lemma WindowKeeps(s: Sys, free: seq<nat>, owner: map<nat, Place>, va: nat)
    requires BootOk(s, free, owner) && TWO_GB <= va < PHYS_LIMIT
    ensures var s' := BootStep(s, Window(va));
            BootOk(s', WindowFree(s.pool, s.boot, free, va), WindowOwner(s.pool, s.boot, free, owner, va))
    ensures forall va': nat | va' < PHYS_LIMIT ::
              Walk(BootStep(s, Window(va)).pool.mem, s.boot.l0, va')
              == if va' / BLOCK_1G == va / BLOCK_1G && !OutOfPages(s.pool, s.boot, va) then Hit(va', true, false)
                 else Walk(s.pool.mem, s.boot.l0, va')
  {
    hide IsTable, IsValid, PaOf, TableDesc, L0Index, MapDevice, WindowFree, Walk, Frame;
    var b, s' := s.boot, BootStep(s, Window(va));
    FreeOwned(s, free, owner);
    assert TreeOffList(s.pool.mem, b, free);
    DeviceWindow(s.pool, b, free, va);
    var free', owner' := WindowFree(s.pool, b, free, va), WindowOwner(s.pool, b, free, owner, va);
    WindowEntries(s.pool, b, free, va, 0);
    WindowLedger(s, s', free, owner, free', owner');
    forall i | 0 < i < ENTRIES && IsValid(BootL0(s'.pool.mem, b, i))
      ensures PaOf(BootL0(s'.pool.mem, b, i)) !in owner'
    {
      WindowEntries(s.pool, b, free, va, i);
      if BootL0(s'.pool.mem, b, i) != BootL0(s.pool.mem, b, i) { FrameFits(free[0]); TableDescRoundTrip(free[0]); }
    }
  }

  lemma FrameFits(p: nat)
    requires Frame(p)
    ensures Fits(p, 0)
  {
  }

  /** Without address spaces the ledger is the free list and the held pages. */
  lemma WindowLedger(s: Sys, s': Sys, free: seq<nat>, owner: map<nat, Place>, free': seq<nat>, owner': map<nat, Place>)
    requires s.vms == map[] && Inv(s, free, owner) && s' == s.(pool := s'.pool) && FreeIs(s'.pool, free')
    requires s'.pool.mem.Keys == s.pool.mem.Keys && BootTree(s'.pool.mem, s.boot)
    requires if free' == free then owner' == owner else free != [] && free' == free[1..] && owner' == owner - {free[0]}
    ensures Inv(s', free', owner')
  {
    hide IsTable, IsValid, PaOf, TableDesc, HighL1s, IsList;
    forall p, pl ensures At(s', free', p, pl) <==> p in owner' && owner'[p] == pl {
      assert At(s, free, p, pl) <==> p in owner && owner[p] == pl;
      if free' != free {
        FirstNotInRest(s.pool, free);
        assert At(s, free, free[0], InFree);
        assert free == [free[0]] + free[1..];
      }
    }
  }

  /** A page request keeps the boot invariant and every translation of the kernel. */
  lemma PageKeeps(s: Sys, free: seq<nat>, owner: map<nat, Place>, op: Op)
    returns (free': seq<nat>, owner': map<nat, Place>)
    requires BootOk(s, free, owner) && BootAllowed(s, Page(op))
    ensures BootOk(Step(s, op), free', owner') && owner'.Keys == owner.Keys
    ensures Step(s, op).boot == s.boot
    ensures forall va: nat | va < PHYS_LIMIT ::
              Walk(Step(s, op).pool.mem, s.boot.l0, va) == Walk(s.pool.mem, s.boot.l0, va)
  {
    hide Inv, BootTree, TreeOff, Walk, BootClosed, BootLinked, Untouched;
    free', owner' := StepKeeps(s, free, owner, op);
    StepTouches(s, free, owner, op);
    SameKeys(s, op);
    TreeUntouched(s.pool.mem, Step(s, op).pool.mem, s.boot, owner.Keys);
    TreeIsClosed(s.pool.mem, s.boot, owner.Keys);
    forall va: nat | va < PHYS_LIMIT
      ensures Walk(Step(s, op).pool.mem, s.boot.l0, va) == Walk(s.pool.mem, s.boot.l0, va)
    {
      BootWalkUntouched(s.pool.mem, Step(s, op).pool.mem, s.boot, owner.Keys, va);
    }
  }

  lemma SameKeys(s: Sys, op: Op)
    requires BootAllowed(s, Page(op))
    ensures Step(s, op).pool.mem.Keys == s.pool.mem.Keys && Step(s, op).vms == s.vms
  {
  }

  /** Any boot run keeps the invariant; afterwards the kernel sees a Device window in every
      gigabyte opened and its former mapping everywhere else. */
  lemma {:induction false} BootRunKeeps(s: Sys, free: seq<nat>, owner: map<nat, Place>, os: seq<BootOp>, t: Sys)
    returns (free': seq<nat>, owner': map<nat, Place>)
    requires BootOk(s, free, owner) && BootRun(s, os, t)
    ensures BootOk(t, free', owner') && owner'.Keys <= owner.Keys && t.boot == s.boot
    ensures forall va: nat | va < PHYS_LIMIT ::
              Walk(t.pool.mem, s.boot.l0, va)
              == if Covered(Opened(s, os, t), va) then Hit(va, true, false) else Walk(s.pool.mem, s.boot.l0, va)
    decreases |os|
  {
    hide BootOk, Walk, MapDevice, Step, Allowed, WindowFree, WindowOwner, OutOfPages, Covered;
    if os == [] {
      NoneCovered();
      return free, owner;
    }
    var s1 := BootStep(s, os[0]);
    match os[0]
    case Window(va) =>
      WindowKeeps(s, free, owner, va);
      OwnerShrinks(s.pool, s.boot, free, owner, va);
      var free1, owner1 := WindowFree(s.pool, s.boot, free, va), WindowOwner(s.pool, s.boot, free, owner, va);
      free', owner' := BootRunKeeps(s1, free1, owner1, os[1..], t);
      forall va': nat | va' < PHYS_LIMIT
        ensures Walk(t.pool.mem, s.boot.l0, va')
             == if Covered(Opened(s, os, t), va') then Hit(va', true, false) else Walk(s.pool.mem, s.boot.l0, va')
      {
        var rest := Opened(s1, os[1..], t);
        if OutOfPages(s.pool, s.boot, va) {
          assert Opened(s, os, t) == [] + rest == rest;
        } else {
          assert Opened(s, os, t) == [va] + rest && ([va] + rest)[1..] == rest;
          CoveredFirst(Opened(s, os, t), va');
        }
      }
    case Page(op) =>
      var free1, owner1 := PageKeeps(s, free, owner, op);
      free', owner' := BootRunKeeps(s1, free1, owner1, os[1..], t);
      assert Opened(s, os, t) == [] + Opened(s1, os[1..], t) == Opened(s1, os[1..], t);
  }

  lemma NoneCovered()
    ensures forall va :: !Covered([], va)
  {
  }

  lemma OwnerShrinks(s: Pool, b: Boot, free: seq<nat>, owner: map<nat, Place>, va: nat)
    ensures WindowOwner(s, b, free, owner, va).Keys <= owner.Keys
  {
  }

  // ---- the whole story ----

  ghost function Booted(s: Pool, b: Boot): Sys { Sys(s, b, map[], {}) }

  lemma EnrolledOk(s: Pool, mem: Memory, b: Boot, uart: nat, free: seq<nat>) returns (owner: map<nat, Place>)
    requires Fresh(mem, b) && uart < PHYS_LIMIT && Enrolled(s, Initialised(mem, b, uart), b, free)
    ensures BootOk(Booted(s, b), free, owner) && owner.Keys == SetOf(free)
  {
    hide IsTable, IsValid, PaOf, TableDesc, Initialised, HighL1s, IsList;
    EnrolledTree(s, mem, b, uart, free);
    ListMembers(s.mem, s.freelist, free);
    owner := map p | p in SetOf(free) :: InFree;
  }

  /** After mmu_init, enrolment and any mix of device windows and page requests, the state is
      one from which all runs keep ownership and the kernel mapping. */
  lemma BootHandsOver(s: Pool, mem: Memory, b: Boot, uart: nat, free: seq<nat>, os: seq<BootOp>, t: Sys)
    returns (pages: set<nat>)
    requires Fresh(mem, b) && uart < PHYS_LIMIT && Enrolled(s, Initialised(mem, b, uart), b, free)
    requires BootRun(Booted(s, b), os, t)
    ensures pages <= SetOf(free) && OwnedOnce(t, pages) && t.boot == b
    ensures BootClosed(t.pool.mem, b, pages) && BootLinked(t.pool.mem, b)
  {
    hide Inv, BootTree, TreeOff, BootRun, Initialised, Enrolled, Walk, BootClosed, BootLinked, Fresh, Covered;
    var owner := EnrolledOk(s, mem, b, uart, free);
    var free', owner' := BootRunKeeps(Booted(s, b), free, owner, os, t);
    TreeIsClosed(t.pool.mem, b, owner'.Keys);
    pages := owner'.Keys;
  }

  lemma MapsTo(mem: Memory, b: Boot, uart: nat, va: nat)
    requires Fresh(mem, b) && uart < PHYS_LIMIT && va < PHYS_LIMIT
    ensures Walk(Initialised(mem, b, uart), b.l0, va) == Expected(uart, va)
  {
    MmuInitMaps(mem, b, uart, va);
  }

  /** From power-on, over every later run, for every process: an address outside the user
      gigabyte, or in a user region without an L3 table, translates to its device window if
      one was opened there, and otherwise through the map of mmu_init. */
  lemma KernelMappingFromBoot(s: Pool, mem: Memory, b: Boot, uart: nat, free: seq<nat>, os: seq<BootOp>, t: Sys,
                              ops: seq<Op>, u: Sys, id: nat, va: nat)
    requires Fresh(mem, b) && uart < PHYS_LIMIT && Enrolled(s, Initialised(mem, b, uart), b, free)
    requires BootRun(Booted(s, b), os, t) && Run(t, ops, u) && id in u.vms && va < PHYS_LIMIT
    requires va < USER_LIMIT ==> !IsTable(L2Entry(u, id, L2Index(va)))
    ensures Walk(u.pool.mem, u.vms[id].l0, va)
         == if Covered(Opened(Booted(s, b), os, t), va) then Hit(va, true, false)
            else Expected(uart, va)
  {
    hide FreeIs, IsTable, Initialised, Walk, BootTree, BootClosed, BootLinked, Run, OwnedOnce, TreeOff;
    hide Expected, L2Index, L2Entry, BootRun, Fresh, Enrolled, BootOk, Covered, Opened, Untouched;
    MapsTo(mem, b, uart, va);
    var owner := EnrolledOk(s, mem, b, uart, free);
    var free', owner' := BootRunKeeps(Booted(s, b), free, owner, os, t);
    var pages := BootHandsOver(s, mem, b, uart, free, os, t);
    EnrolledTree(s, mem, b, uart, free);
    BootWalkUntouched(Initialised(mem, b, uart), s.mem, b, SetOf(free), va);
    RunKeepsKernelMapping(t, ops, u, pages, id, va);
  }
}
