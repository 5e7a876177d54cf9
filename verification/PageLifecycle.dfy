/** Creation and teardown of address spaces, and ownership over whole runs. */
module PageLifecycle {
  import opened Descriptors
  import opened Pmm
  import opened Seqs
  import opened PageTables
  import opened PageOwnership

  /** The place belongs to address space `id`. */
  predicate Of(pl: Place, id: nat) { !pl.InFree? && !pl.Held? && pl.id == id }

  ghost function PagesOfVm(owner: map<nat, Place>, id: nat): set<nat> {
    set p | p in owner && Of(owner[p], id)
  }

  // ---- a wired trio of pages becomes an address space, and back ----

  function Attached(s: Sys, id: nat, vm: Vm): Sys {
    s.(pool := s.pool.(mem := Wire(s.pool.mem, s.boot, vm)), vms := s.vms[id := vm],
       held := s.held - {vm.l0, vm.l1, vm.l2})
  }

  ghost function AttachedOwner(owner: map<nat, Place>, id: nat, vm: Vm): map<nat, Place> {
    owner[vm.l0 := L0(id)][vm.l1 := L1(id)][vm.l2 := L2(id)]
  }

  ghost predicate HeldTrio(s: Sys, vm: Vm) {
    && vm.l0 in s.held && vm.l1 in s.held && vm.l2 in s.held
    && vm.l0 != vm.l1 && vm.l1 != vm.l2 && vm.l0 != vm.l2
  }

  lemma AttachKeeps(s: Sys, free: seq<nat>, owner: map<nat, Place>, id: nat, vm: Vm)
    requires Inv(s, free, owner) && id !in s.vms && HeldTrio(s, vm)
    ensures Inv(Attached(s, id, vm), free, AttachedOwner(owner, id, vm))
  {
    hide IsTable, IsValid, PaOf, TableDesc, PageDesc, VmShape, FreeIs, At;
    var s' := Attached(s, id, vm);
    AttachList(s, free, owner, id, vm);
    var t := s.(pool := s'.pool);
    KeepTables(s, t, free, free, owner);
    forall q: nat, pl
      ensures At(s', free, q, pl) <==> q in AttachedOwner(owner, id, vm) && AttachedOwner(owner, id, vm)[q] == pl
    {
      AttachPlaces(s, free, owner, id, vm, q, pl);
    }
    forall id' | id' in s'.vms ensures VmShape(s', id') {
      if id' == id {
        AttachShape(s, free, owner, id, vm);
      } else {
        SameShape(t, s', id');
      }
    }
  }

  /** The wired tables were off the free list; the list stands. */
  lemma AttachList(s: Sys, free: seq<nat>, owner: map<nat, Place>, id: nat, vm: Vm)
    requires Inv(s, free, owner) && id !in s.vms && HeldTrio(s, vm)
    ensures var s' := Attached(s, id, vm);
            && FreeIs(s'.pool, free) && BootShape(s', AttachedOwner(owner, id, vm))
            && AttachedOwner(owner, id, vm).Keys == owner.Keys && s'.pool.mem.Keys == s.pool.mem.Keys
            && SameTables(s, s.(pool := s'.pool), owner)
  {
    hide IsTable, IsValid, PaOf, TableDesc, PageDesc, VmShape;
    var s' := Attached(s, id, vm);
    assert At(s, free, vm.l0, Held) && At(s, free, vm.l1, Held) && At(s, free, vm.l2, Held);
    assert !At(s, free, vm.l0, InFree) && !At(s, free, vm.l1, InFree) && !At(s, free, vm.l2, InFree);
    ListMembers(s.pool.mem, s.pool.freelist, free);
    ListFrame(s.pool.mem, s'.pool.mem, s.pool.freelist, free);
  }

  lemma AttachPlaces(s: Sys, free: seq<nat>, owner: map<nat, Place>, id: nat, vm: Vm, q: nat, pl: Place)
    requires Inv(s, free, owner) && id !in s.vms && HeldTrio(s, vm)
    ensures var owner' := AttachedOwner(owner, id, vm);
            At(Attached(s, id, vm), free, q, pl) <==> q in owner' && owner'[q] == pl
  {
    if pl.L3? || pl.Mapped? {
      AttachDeep(s, free, owner, id, vm, q, pl);
    } else {
      hide IsTable, IsValid, PaOf, TableDesc, PageDesc, VmShape, FreeIs;
      assert At(s, free, vm.l0, Held) && At(s, free, vm.l1, Held) && At(s, free, vm.l2, Held);
      assert At(s, free, q, pl) <==> q in owner && owner[q] == pl;
    }
  }

  /** A new address space maps nothing: its L2 table holds no table descriptor. */
  lemma AttachOwn(s: Sys, free: seq<nat>, owner: map<nat, Place>, id: nat, vm: Vm, q: nat, pl: Place)
    requires Inv(s, free, owner) && id !in s.vms && HeldTrio(s, vm) && (pl.L3? || pl.Mapped?) && pl.id == id
    ensures !At(Attached(s, id, vm), free, q, pl) && !At(s, free, q, pl)
  {
    hide IsTable, IsValid, PaOf, TableDesc, PageDesc, VmShape, FreeIs;
    assert At(s, free, vm.l2, Held);
    assert pl.i < ENTRIES ==> L2Entry(Attached(s, id, vm), id, pl.i) == s.pool.mem[s.boot.l2][pl.i];
  }

  /** The tables of the other address spaces are as they were. */
  lemma AttachOther(s: Sys, free: seq<nat>, owner: map<nat, Place>, id: nat, vm: Vm, q: nat, pl: Place)
    requires Inv(s, free, owner) && id !in s.vms && HeldTrio(s, vm) && (pl.L3? || pl.Mapped?) && pl.id != id
    ensures At(Attached(s, id, vm), free, q, pl) <==> At(s, free, q, pl)
  {
    hide IsTable, IsValid, PaOf, TableDesc, PageDesc, VmShape, FreeIs;
    var s' := Attached(s, id, vm);
    var t := s.(pool := s'.pool);
    assert At(s, free, vm.l0, Held) && At(s, free, vm.l1, Held) && At(s, free, vm.l2, Held);
    KeepTables(s, t, free, free, owner);
    assert At(t, free, q, pl) <==> At(s, free, q, pl);
    if pl.i < ENTRIES && pl.id in s.vms {
      assert L2Entry(s', pl.id, pl.i) == L2Entry(t, pl.id, pl.i);
      assert pl.Mapped? && pl.j < ENTRIES ==> L3Entry(s', pl.id, pl.i, pl.j) == L3Entry(t, pl.id, pl.i, pl.j);
    }
  }

  lemma AttachDeep(s: Sys, free: seq<nat>, owner: map<nat, Place>, id: nat, vm: Vm, q: nat, pl: Place)
    requires Inv(s, free, owner) && id !in s.vms && HeldTrio(s, vm) && (pl.L3? || pl.Mapped?)
    ensures var owner' := AttachedOwner(owner, id, vm);
            At(Attached(s, id, vm), free, q, pl) <==> q in owner' && owner'[q] == pl
  {
    assert At(s, free, q, pl) <==> q in owner && owner[q] == pl;
    assert At(s, free, vm.l0, Held) && At(s, free, vm.l1, Held) && At(s, free, vm.l2, Held);
    hide At, Attached, FreeIs, BootShape, VmShape;
    if pl.id == id { AttachOwn(s, free, owner, id, vm, q, pl); } else { AttachOther(s, free, owner, id, vm, q, pl); }
  }

  lemma AttachShape(s: Sys, free: seq<nat>, owner: map<nat, Place>, id: nat, vm: Vm)
    requires Inv(s, free, owner) && id !in s.vms && HeldTrio(s, vm)
    ensures VmShape(Attached(s, id, vm), id)
  {
    hide IsTable, IsValid, PaOf, TableDesc, PageDesc, FreeIs;
    var s' := Attached(s, id, vm);
    assert At(s, free, vm.l0, Held) && At(s, free, vm.l1, Held) && At(s, free, vm.l2, Held);
    assert forall i :: 0 <= i < ENTRIES ==> L2Entry(s', id, i) == s.pool.mem[s.boot.l2][i];
  }

  ghost function DetachedOwner(owner: map<nat, Place>, id: nat): map<nat, Place> {
    map p | p in owner :: if Of(owner[p], id) then Held else owner[p]
  }

  /** Forgetting an address space leaves all of its pages in the caller's hands. */
  lemma DetachKeeps(s: Sys, free: seq<nat>, owner: map<nat, Place>, id: nat)
    requires Inv(s, free, owner) && id in s.vms
    ensures Inv(s.(vms := s.vms - {id}, held := s.held + PagesOfVm(owner, id)), free, DetachedOwner(owner, id))
  {
    hide IsTable, IsValid, PaOf, TableDesc, PageDesc, VmShape;
    var s' := s.(vms := s.vms - {id}, held := s.held + PagesOfVm(owner, id));
    var owner' := DetachedOwner(owner, id);
    forall q, pl
      ensures At(s', free, q, pl) <==> q in owner' && owner'[q] == pl
    {
      assert At(s, free, q, pl) <==> q in owner && owner[q] == pl;
      if (pl.L3? || pl.Mapped?) && pl.id in s'.vms && pl.i < ENTRIES {
        assert L2Entry(s', pl.id, pl.i) == L2Entry(s, pl.id, pl.i);
        assert pl.Mapped? && pl.j < ENTRIES ==> L3Entry(s', pl.id, pl.i, pl.j) == L3Entry(s, pl.id, pl.i, pl.j);
      }
      if pl.Held? && q in owner && !Of(owner[q], id) {
        assert q in owner' && owner'[q] == owner[q];
      }
    }
    forall id' | id' in s'.vms ensures VmShape(s', id') {
      assert VmShape(s, id');
      SameShape(s, s', id');
    }
  }

  // ---- what teardown frees, in order ----

  /** Frames named by the valid entries of an L3 table from entry `j` on. */
  function PagesOf(page: Page, j: nat): seq<nat>
    requires j <= ENTRIES
    decreases ENTRIES - j
  {
    if j == ENTRIES then []
    else (if IsValid(page[j]) then [PaOf(page[j])] else []) + PagesOf(page, j + 1)
  }

  /** Everything freed below an L2 table from entry `i` on: pages first, then their table. */
  function Order(mem: Memory, l2: nat, i: nat): seq<nat>
    requires i <= ENTRIES
    decreases ENTRIES - i
  {
    if i == ENTRIES then []
    else
      var e := Peek(mem, l2)[i];
      (if IsTable(e) then PagesOf(Peek(mem, PaOf(e)), 0) + [PaOf(e)] else []) + Order(mem, l2, i + 1)
  }

  lemma NoDupConcat(a: seq<nat>, b: seq<nat>)
    requires NoDup(a) && NoDup(b) && forall p :: p in a ==> p !in b
    ensures NoDup(a + b)
  {
    forall i, j | 0 <= i < j < |a + b| ensures (a + b)[i] != (a + b)[j] {
      if i < |a| <= j {
        assert a[i] in a && b[j - |a|] in b;
      }
    }
  }

  lemma NoDupSplit(a: seq<nat>, b: seq<nat>)
    requires NoDup(a + b)
    ensures NoDup(a) && NoDup(b) && forall p :: p in a ==> p !in b
  {
    var c := a + b;
    assert forall i :: 0 <= i < |a| ==> c[i] == a[i];
    assert forall j :: 0 <= j < |b| ==> c[|a| + j] == b[j];
    forall i, j | 0 <= i < j < |b| ensures b[i] != b[j] {
      assert c[|a| + i] != c[|a| + j];
    }
  }

  /** The pages named by one L3 table are exactly those mapped under it, each once. */
  lemma {:induction false} PagesOfFacts(s: Sys, free: seq<nat>, owner: map<nat, Place>, id: nat, i: nat, j: nat)
    requires Inv(s, free, owner) && id in s.vms && i < ENTRIES && j <= ENTRIES
    requires IsTable(L2Entry(s, id, i))
    ensures var ps := PagesOf(Peek(s.pool.mem, PaOf(L2Entry(s, id, i))), j);
            && NoDup(ps)
            && forall p :: p in ps <==>
                 p in owner && owner[p].Mapped? && owner[p].id == id && owner[p].i == i && j <= owner[p].j
    decreases ENTRIES - j
  {
    hide IsTable, IsValid, PaOf, FreeIs, VmShape, BootShape;
    var page := Peek(s.pool.mem, PaOf(L2Entry(s, id, i)));
    if j < ENTRIES {
      PagesOfFacts(s, free, owner, id, i, j + 1);
      var rest := PagesOf(page, j + 1);
      var e := L3Entry(s, id, i, j);
      assert e == page[j];
      if IsValid(e) {
        assert At(s, free, PaOf(e), Mapped(id, i, j));
        NoDupConcat([PaOf(e)], rest);
      } else {
        assert PagesOf(page, j) == rest;
      }
      forall p | p in owner && owner[p] == Mapped(id, i, j) ensures IsValid(e) && p == PaOf(e) {
        assert At(s, free, p, Mapped(id, i, j));
      }
    } else {
      forall p | p in owner && owner[p].Mapped? && owner[p].id == id && owner[p].i == i ensures owner[p].j < j {
        assert At(s, free, p, owner[p]);
      }
    }
  }

  /** The pages under one L2 entry, and the table itself. */
  lemma TableFacts(s: Sys, free: seq<nat>, owner: map<nat, Place>, id: nat, i: nat)
    requires Inv(s, free, owner) && id in s.vms && i < ENTRIES && IsTable(L2Entry(s, id, i))
    ensures var l3 := PaOf(L2Entry(s, id, i));
            var ps := PagesOf(Peek(s.pool.mem, l3), 0) + [l3];
            && NoDup(ps)
            && forall p :: p in ps <==>
                 p in owner && (owner[p].L3? || owner[p].Mapped?) && owner[p].id == id && owner[p].i == i
  {
    hide IsTable, IsValid, PaOf, FreeIs, VmShape, BootShape, PagesOf;
    var l3 := PaOf(L2Entry(s, id, i));
    PagesOfFacts(s, free, owner, id, i, 0);
    assert At(s, free, l3, L3(id, i));
    NoDupConcat(PagesOf(Peek(s.pool.mem, l3), 0), [l3]);
    forall p | p in owner && owner[p].L3? && owner[p].id == id && owner[p].i == i ensures p == l3 {
      assert At(s, free, p, L3(id, i));
    }
  }

  lemma NoTable(s: Sys, free: seq<nat>, owner: map<nat, Place>, id: nat, i: nat)
    requires Inv(s, free, owner) && id in s.vms && i < ENTRIES && !IsTable(L2Entry(s, id, i))
    ensures forall p :: p in owner && (owner[p].L3? || owner[p].Mapped?) && owner[p].id == id ==> owner[p].i != i
  {
    hide IsTable, IsValid, PaOf, FreeIs, VmShape, BootShape;
    forall p | p in owner && (owner[p].L3? || owner[p].Mapped?) && owner[p].id == id ensures owner[p].i != i {
      assert At(s, free, p, owner[p]);
    }
  }

  /** Teardown's order holds exactly the L3 tables and mapped pages of the address space, each once. */
  lemma {:induction false} OrderFacts(s: Sys, free: seq<nat>, owner: map<nat, Place>, id: nat, i: nat)
    requires Inv(s, free, owner) && id in s.vms && i <= ENTRIES
    ensures var ps := Order(s.pool.mem, s.vms[id].l2, i);
            && NoDup(ps)
            && forall p :: p in ps <==>
                 p in owner && (owner[p].L3? || owner[p].Mapped?) && owner[p].id == id && i <= owner[p].i
    decreases ENTRIES - i
  {
    hide IsTable, IsValid, PaOf, FreeIs, VmShape, BootShape, PagesOf;
    var mem, l2 := s.pool.mem, s.vms[id].l2;
    if i < ENTRIES {
      OrderFacts(s, free, owner, id, i + 1);
      var rest := Order(mem, l2, i + 1);
      var e := L2Entry(s, id, i);
      hide Inv, NoDup;
      if IsTable(e) {
        TableFacts(s, free, owner, id, i);
        var here := PagesOf(Peek(mem, PaOf(e)), 0) + [PaOf(e)];
        NoDupConcat(here, rest);
        assert Order(mem, l2, i) == here + rest;
      } else {
        assert Order(mem, l2, i) == rest;
        NoTable(s, free, owner, id, i);
      }
    } else {
      forall p | p in owner && (owner[p].L3? || owner[p].Mapped?) && owner[p].id == id ensures owner[p].i < i {
        assert At(s, free, p, owner[p]);
      }
    }
  }

  // ---- teardown runs in that order ----

  ghost function SetOf(ps: seq<nat>): set<nat> { set p | p in ps }

  ghost function FreedOwner(owner: map<nat, Place>, ps: seq<nat>): map<nat, Place> {
    map p | p in owner :: if p in ps then InFree else owner[p]
  }

  /** The state with the caller-held pages `ps` given back and the pool now `pool`. */
  ghost function Returned(s: Sys, pool: Pool, ps: seq<nat>): Sys {
    s.(pool := pool, held := s.held - SetOf(ps))
  }

  ghost predicate OthersKept(s: Pool, s': Pool, ps: seq<nat>) {
    s'.mem.Keys == s.mem.Keys && forall q :: q in s.mem && q !in ps ==> s'.mem[q] == s.mem[q]
  }

  /** Giving back one page and then the rest is giving back all. */
  lemma FreedCons(s: Sys, owner: map<nat, Place>, p: nat, rest: seq<nat>, pool: Pool)
    requires p in owner
    ensures Returned(s.(pool := Free(s.pool, p), held := s.held - {p}), pool, rest) == Returned(s, pool, [p] + rest)
    ensures FreedOwner(owner[p := InFree], rest) == FreedOwner(owner, [p] + rest)
    ensures p in s.pool.mem && OthersKept(Free(s.pool, p), pool, rest) ==> OthersKept(s.pool, pool, [p] + rest)
  {
    assert s.held - {p} - SetOf(rest) == s.held - SetOf([p] + rest);
  }

  lemma {:induction false} FreePagesKeeps(s: Sys, free: seq<nat>, owner: map<nat, Place>, l3: nat, j: nat)
    returns (free': seq<nat>)
    requires Inv(s, free, owner) && j <= ENTRIES
    requires var ps := PagesOf(Peek(s.pool.mem, l3), j); NoDup(ps) && l3 !in ps && SetOf(ps) <= s.held
    ensures var ps := PagesOf(Peek(s.pool.mem, l3), j);
            var pool' := FreePages(s.pool, l3, j);
            Inv(Returned(s, pool', ps), free', FreedOwner(owner, ps)) && OthersKept(s.pool, pool', ps)
    decreases ENTRIES - j
  {
    hide IsTable, IsValid, PaOf, Inv;
    var ps := PagesOf(Peek(s.pool.mem, l3), j);
    if j == ENTRIES {
      free' := free;
      assert Returned(s, s.pool, ps) == s;
      assert FreedOwner(owner, ps) == owner;
    } else {
      var e := Peek(s.pool.mem, l3)[j];
      var rest := PagesOf(Peek(s.pool.mem, l3), j + 1);
      if IsValid(e) {
        var p := PaOf(e);
        assert ps == [p] + rest;
        NoDupSplit([p], rest);
        assert p in ps && p in SetOf(ps);
        FreeKeeps(s, free, owner, p);
        var s1 := s.(pool := Free(s.pool, p), held := s.held - {p});
        assert Peek(s1.pool.mem, l3) == Peek(s.pool.mem, l3);
        assert SetOf(rest) <= s1.held;
        free' := FreePagesKeeps(s1, [p] + free, owner[p := InFree], l3, j + 1);
        HeldOwner(s, free, owner, p);
        FreedCons(s, owner, p, rest, FreePages(s1.pool, l3, j + 1));
      } else {
        assert ps == rest;
        free' := FreePagesKeeps(s, free, owner, l3, j + 1);
      }
    }
  }

  lemma {:induction false} OrderFrame(mem: Memory, mem': Memory, l2: nat, i: nat)
    requires i <= ENTRIES
    requires forall k :: i <= k < ENTRIES ==> Peek(mem', l2)[k] == Peek(mem, l2)[k]
    requires forall q :: q in Order(mem, l2, i) ==> Peek(mem', q) == Peek(mem, q)
    ensures Order(mem', l2, i) == Order(mem, l2, i)
    decreases ENTRIES - i
  {
    hide IsTable, PaOf, PagesOf;
    if i < ENTRIES {
      var e := Peek(mem, l2)[i];
      if IsTable(e) {
        assert PaOf(e) in Order(mem, l2, i);
      }
      OrderFrame(mem, mem', l2, i + 1);
    }
  }

  /** Freeing a list of pages and then one more is freeing the longer list. */
  lemma OneMoreFreed(s: Sys, owner: map<nat, Place>, pool1: Pool, pool2: Pool, pages: seq<nat>, l3: nat)
    requires l3 in owner
    ensures Returned(s, pool1, pages).(pool := pool2, held := Returned(s, pool1, pages).held - {l3})
            == Returned(s, pool2, pages + [l3])
    ensures FreedOwner(owner, pages)[l3 := InFree] == FreedOwner(owner, pages + [l3])
  {
  }

  /** One L2 entry torn down: its pages, then its table, then the entry cleared. */
  lemma FreeOneTable(s: Sys, free: seq<nat>, owner: map<nat, Place>, l2: nat, i: nat)
    returns (free': seq<nat>)
    requires Inv(s, free, owner) && i < ENTRIES && IsTable(Peek(s.pool.mem, l2)[i])
    requires l2 in s.held
    requires var l3 := PaOf(Peek(s.pool.mem, l2)[i]);
             var ps := PagesOf(Peek(s.pool.mem, l3), 0) + [l3];
             NoDup(ps) && l2 !in ps && SetOf(ps) <= s.held
    ensures var l3 := PaOf(Peek(s.pool.mem, l2)[i]);
            var ps := PagesOf(Peek(s.pool.mem, l3), 0) + [l3];
            var s1 := Free(FreePages(s.pool, l3, 0), l3);
            var pool' := s1.(mem := Poke(s1.mem, l2, i, 0));
            && Inv(Returned(s, pool', ps), free', FreedOwner(owner, ps))
            && OthersKept(s.pool, pool', ps + [l2])
            && Peek(pool'.mem, l2) == Peek(s.pool.mem, l2)[i := 0]
  {
    hide IsTable, IsValid, PaOf, PagesOf, FreePages, Ledger, FreeIs, BootShape, VmShape;
    var l3 := PaOf(Peek(s.pool.mem, l2)[i]);
    var pages := PagesOf(Peek(s.pool.mem, l3), 0);
    var ps := pages + [l3];
    NoDupSplit(pages, [l3]);
    assert l3 in ps && l3 in SetOf(ps);
    assert SetOf(pages) <= s.held;
    var free1 := FreePagesKeeps(s, free, owner, l3, 0);
    var pool1 := FreePages(s.pool, l3, 0);
    var t1, owner1 := Returned(s, pool1, pages), FreedOwner(owner, pages);
    FreeKeeps(t1, free1, owner1, l3);
    var pool2 := Free(pool1, l3);
    var t2, owner2 := t1.(pool := pool2, held := t1.held - {l3}), owner1[l3 := InFree];
    OneMoreFreed(s, owner, pool1, pool2, pages, l3);
    hide Free, Inv, FreedOwner, NoDup;
    HeldOwner(t2, [l3] + free1, owner2, l2);
    WriteKeeps(t2, [l3] + free1, owner2, l2, i, 0);
    free' := [l3] + free1;
    assert l2 in s.pool.mem by { HeldOwner(s, free, owner, l2); }
  }

  lemma HeldOwner(s: Sys, free: seq<nat>, owner: map<nat, Place>, p: nat)
    requires Inv(s, free, owner) && p in s.held
    ensures p in owner && owner[p] == Held && p in s.pool.mem
  {
    assert At(s, free, p, Held);
  }

  lemma {:induction false} FreeTablesKeeps(s: Sys, free: seq<nat>, owner: map<nat, Place>, l2: nat, i: nat)
    returns (free': seq<nat>)
    requires Inv(s, free, owner) && i <= ENTRIES && l2 in s.held
    requires var ps := Order(s.pool.mem, l2, i); NoDup(ps) && l2 !in ps && SetOf(ps) <= s.held
    ensures var ps := Order(s.pool.mem, l2, i);
            var pool' := FreeTables(s.pool, l2, i);
            Inv(Returned(s, pool', ps), free', FreedOwner(owner, ps)) && OthersKept(s.pool, pool', ps + [l2])
    decreases ENTRIES - i
  {
    hide IsTable, IsValid, PaOf, PagesOf, FreePages, Inv, Free;
    var mem := s.pool.mem;
    var ps := Order(mem, l2, i);
    if i == ENTRIES {
      free' := free;
      assert Returned(s, s.pool, ps) == s;
      assert FreedOwner(owner, ps) == owner;
    } else {
      var e := Peek(mem, l2)[i];
      var rest := Order(mem, l2, i + 1);
      if !IsTable(e) {
        assert ps == rest;
        free' := FreeTablesKeeps(s, free, owner, l2, i + 1);
      } else {
        var l3 := PaOf(e);
        var here := PagesOf(Peek(mem, l3), 0) + [l3];
        assert ps == here + rest;
        NoDupSplit(here, rest);
        assert SetOf(ps) == SetOf(here) + SetOf(rest);
        assert l2 !in here && l2 !in rest;
        assert SetOf(here) !! SetOf(rest);
        var free1 := FreeOneTable(s, free, owner, l2, i);
        var s1 := Free(FreePages(s.pool, l3, 0), l3);
        var pool1 := s1.(mem := Poke(s1.mem, l2, i, 0));
        var t, owner1 := Returned(s, pool1, here), FreedOwner(owner, here);
        assert FreeTables(s.pool, l2, i) == FreeTables(pool1, l2, i + 1);
        forall q | q in rest ensures Peek(pool1.mem, q) == Peek(mem, q) {
          assert q !in here + [l2];
        }
        OrderFrame(mem, pool1.mem, l2, i + 1);
        free' := FreeTablesKeeps(t, free1, owner1, l2, i + 1);
        var pool' := FreeTables(s.pool, l2, i);
        ReturnedChain(s, owner, pool1, pool', here, rest);
        OthersChain(s.pool, pool1, pool', here, rest, l2);
      }
    }
  }

  lemma ReturnedChain(s: Sys, owner: map<nat, Place>, a: Pool, b: Pool, ps: seq<nat>, qs: seq<nat>)
    ensures Returned(Returned(s, a, ps), b, qs) == Returned(s, b, ps + qs)
    ensures FreedOwner(FreedOwner(owner, ps), qs) == FreedOwner(owner, ps + qs)
  {
    assert SetOf(ps + qs) == SetOf(ps) + SetOf(qs);
  }

  lemma OthersChain(a: Pool, b: Pool, c: Pool, ps: seq<nat>, qs: seq<nat>, l2: nat)
    requires OthersKept(a, b, ps + [l2]) && OthersKept(b, c, qs + [l2])
    ensures OthersKept(a, c, ps + qs + [l2])
  {
    forall q | q in a.mem && q !in ps + qs + [l2] ensures c.mem[q] == a.mem[q] {
      assert q !in ps + [l2] && q !in qs + [l2];
    }
  }

  /** An address space's pages are its three tables and what teardown walks. */
  lemma VmPages(s: Sys, free: seq<nat>, owner: map<nat, Place>, id: nat)
    requires Inv(s, free, owner) && id in s.vms
    ensures var vm := s.vms[id];
            var ps := Order(s.pool.mem, vm.l2, 0);
            && NoDup(ps) && vm.l0 !in ps && vm.l1 !in ps && vm.l2 !in ps
            && vm.l0 != vm.l1 && vm.l1 != vm.l2 && vm.l0 != vm.l2
            && PagesOfVm(owner, id) == SetOf(ps) + {vm.l0, vm.l1, vm.l2}
            && s.held !! PagesOfVm(owner, id)
  {
    hide IsTable, IsValid, PaOf, Order, FreeIs, BootShape, VmShape;
    var vm := s.vms[id];
    var ps := Order(s.pool.mem, vm.l2, 0);
    OrderFacts(s, free, owner, id, 0);
    assert At(s, free, vm.l0, L0(id)) && At(s, free, vm.l1, L1(id)) && At(s, free, vm.l2, L2(id));
    forall p | p in s.held ensures p !in PagesOfVm(owner, id) {
      assert At(s, free, p, Held);
    }
    forall p | p in PagesOfVm(owner, id) ensures p in SetOf(ps) + {vm.l0, vm.l1, vm.l2} {
      assert At(s, free, p, owner[p]);
    }
  }

  ghost function DestroyedOwner(owner: map<nat, Place>, id: nat): map<nat, Place> {
    map p | p in owner :: if Of(owner[p], id) then InFree else owner[p]
  }

  lemma DestroyedOwnerIs(owner: map<nat, Place>, id: nat, ps: seq<nat>, vm: Vm)
    requires PagesOfVm(owner, id) == SetOf(ps) + {vm.l0, vm.l1, vm.l2}
    ensures FreedOwner(DetachedOwner(owner, id), ps)[vm.l0 := InFree][vm.l1 := InFree][vm.l2 := InFree]
         == DestroyedOwner(owner, id)
  {
    var all := PagesOfVm(owner, id);
    assert vm.l0 in all && vm.l1 in all && vm.l2 in all;
    forall p | p in owner
      ensures Of(owner[p], id) <==> p in ps || p == vm.l0 || p == vm.l1 || p == vm.l2
    {
      assert p in all <==> Of(owner[p], id);
    }
  }

  /** mmu_vmap_destroy gives back exactly the pages of the address space: afterwards each
      of them is on the free list once, and no other page has moved or changed. */
  lemma DestroyReturnsAll(s: Sys, free: seq<nat>, owner: map<nat, Place>, id: nat)
    returns (free': seq<nat>)
    requires Inv(s, free, owner) && id in s.vms
    ensures var s' := s.(pool := Destroy(s.pool, s.vms[id]), vms := s.vms - {id});
            && Inv(s', free', DestroyedOwner(owner, id))
            && s'.pool.mem.Keys == s.pool.mem.Keys
            && (forall q :: q in s.pool.mem && q !in PagesOfVm(owner, id) ==> s'.pool.mem[q] == s.pool.mem[q])
  {
    hide Inv, FreeTables, Order, DetachedOwner, DestroyedOwner, FreedOwner, PagesOfVm, Free;
    var vm := s.vms[id];
    var all := PagesOfVm(owner, id);
    var ps := Order(s.pool.mem, vm.l2, 0);
    VmPages(s, free, owner, id);
    DetachKeeps(s, free, owner, id);
    var d, owner0 := s.(vms := s.vms - {id}, held := s.held + all), DetachedOwner(owner, id);
    var free1 := FreeTablesKeeps(d, free, owner0, vm.l2, 0);
    var pool1 := FreeTables(s.pool, vm.l2, 0);
    var d1 := Returned(d, pool1, ps);
    TrioFreed(d1, free1, FreedOwner(owner0, ps), vm);
    DestroyedOwnerIs(owner, id, ps, vm);
    free' := [vm.l2] + ([vm.l1] + ([vm.l0] + free1));
    var s' := s.(pool := Destroy(s.pool, vm), vms := s.vms - {id});
    assert vm.l2 != 0 by { NonZero(s, free, owner, id); }
    assert d1.held - {vm.l0} - {vm.l1} - {vm.l2} == s.held;
    assert s' == d1.(pool := Free(Free(Free(d1.pool, vm.l0), vm.l1), vm.l2),
                     held := d1.held - {vm.l0} - {vm.l1} - {vm.l2});
    forall q | q in s.pool.mem && q !in all
      ensures s'.pool.mem[q] == s.pool.mem[q]
    {
      assert q !in ps + [vm.l2] && q !in [vm.l0, vm.l1, vm.l2];
    }
  }

  lemma NonZero(s: Sys, free: seq<nat>, owner: map<nat, Place>, id: nat)
    requires Inv(s, free, owner) && id in s.vms
    ensures s.vms[id].l2 != 0 && s.vms[id].l2 in s.pool.mem
  {
    assert At(s, free, s.vms[id].l2, L2(id));
  }

  lemma TrioFreed(s: Sys, free: seq<nat>, owner: map<nat, Place>, vm: Vm)
    requires Inv(s, free, owner) && HeldTrio(s, vm)
    ensures var pool' := Free(Free(Free(s.pool, vm.l0), vm.l1), vm.l2);
            && Inv(s.(pool := pool', held := s.held - {vm.l0} - {vm.l1} - {vm.l2}),
                   [vm.l2] + ([vm.l1] + ([vm.l0] + free)),
                   owner[vm.l0 := InFree][vm.l1 := InFree][vm.l2 := InFree])
            && OthersKept(s.pool, pool', [vm.l0, vm.l1, vm.l2])
  {
    hide Inv, Free;
    FreeKeeps(s, free, owner, vm.l0);
    var s1 := s.(pool := Free(s.pool, vm.l0), held := s.held - {vm.l0});
    FreeKeeps(s1, [vm.l0] + free, owner[vm.l0 := InFree], vm.l1);
    var s2 := s1.(pool := Free(s1.pool, vm.l1), held := s1.held - {vm.l1});
    FreeKeeps(s2, [vm.l1] + ([vm.l0] + free), owner[vm.l0 := InFree][vm.l1 := InFree], vm.l2);
  }
}
