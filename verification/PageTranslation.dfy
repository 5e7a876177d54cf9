/** Address translation: the user mappings of every address space refine a table of
    finite maps, the four-level hardware walk agrees with them, and the kernel's own
    mapping stays what it was when the address space was created. */
module PageTranslation {
  import opened Descriptors
  import opened Pmm
  import opened PageTables
  import opened PageOwnership
  import opened PageLifecycle
  import opened PageRuns

  const USER_PAGES: nat := 0x4_0000

  function PageOf(va: nat): nat { va / PAGE_SIZE }

  /** User page number -> physical page, as the tables say. */
  ghost function UserMap(s: Sys, id: nat): map<nat, nat>
    requires id in s.vms
  {
    map n | 0 <= n < USER_PAGES && IsValid(UserEntry(s.pool.mem, s.vms[id], n * PAGE_SIZE))
      :: PaOf(UserEntry(s.pool.mem, s.vms[id], n * PAGE_SIZE))
  }

  lemma Indices(va: nat)
    requires va < USER_LIMIT
    ensures var n := va / PAGE_SIZE;
            && n < USER_PAGES && L2Index(va) == n / 512 && L3Index(va) == n % 512
            && L2Index(n * PAGE_SIZE) == n / 512 && L3Index(n * PAGE_SIZE) == n % 512
            && L0Index(va) == 0 && L1Index(va) == 0
  {
    var n := va / PAGE_SIZE;
    assert va / BLOCK_2M == n / 512;
    assert n * PAGE_SIZE / BLOCK_2M == n / 512;
    assert n * PAGE_SIZE / PAGE_SIZE == n;
  }

  /** mmu_vmap_user_va_to_kva looks `va` up in the finite map and adds the page offset. */
  lemma TranslationRefinesMap(s: Sys, id: nat, va: nat)
    requires id in s.vms && va < USER_LIMIT
    ensures var m, n := UserMap(s, id), va / PAGE_SIZE;
            UserToKernel(s.pool.mem, s.vms[id], va) == if n in m then m[n] + va % PAGE_SIZE else 0
  {
    hide IsTable, IsValid, PaOf, L2Index, L3Index;
    var n := va / PAGE_SIZE;
    Indices(va);
    assert UserEntry(s.pool.mem, s.vms[id], va) == UserEntry(s.pool.mem, s.vms[id], n * PAGE_SIZE);
  }

  /** The finite maps are the `Mapped` part of the ownership ledger. */
  lemma MapIsLedger(s: Sys, free: seq<nat>, owner: map<nat, Place>, id: nat, n: nat, p: nat)
    requires Inv(s, free, owner) && id in s.vms && n < USER_PAGES
    ensures n in UserMap(s, id) && UserMap(s, id)[n] == p <==>
            p in owner && owner[p] == Mapped(id, n / 512, n % 512)
  {
    hide IsTable, IsValid, PaOf, L2Index, L3Index;
    var va := n * PAGE_SIZE;
    assert va < USER_LIMIT && va / PAGE_SIZE == n;
    Indices(va);
    UserEntryIs(s, free, owner, id, va);
    assert !IsValid(0) by { ZeroInvalid(); }
    assert At(s, free, p, Mapped(id, n / 512, n % 512)) <==>
           p in owner && owner[p] == Mapped(id, n / 512, n % 512);
  }

  // ---- the abstract machine: a finite map per address space ----

  type Maps = map<nat, map<nat, nat>>

  function With(m: map<nat, nat>, n: nat, p: nat): map<nat, nat> { m[n := p] }

  ghost function MapsOf(s: Sys): Maps {
    map id | id in s.vms :: UserMap(s, id)
  }

  /** What each operation does to the user mappings, and nothing more.  Creation and
      mapping may run out of pages (`ok` false), which changes no mapping. */
  ghost function AbsStep(m: Maps, op: Op, ok: bool): Maps {
    match op
    case CreateVm(id) => if ok then m[id := map[]] else m
    case MapPage(id, va, pa) =>
      if ok && id in m then m[id := With(m[id], PageOf(va), pa)] else m
    case UnmapPage(id, va) => if id in m then m[id := m[id] - {PageOf(va)}] else m
    case DestroyVm(id) => m - {id}
    case _ => m
  }

  ghost predicate Succeeds(s: Sys, op: Op)
    requires Allowed(s, op)
  {
    match op
    case CreateVm(id) => Create(s.pool, s.boot).1 != NoVm
    case MapPage(id, va, pa) => MapUser(s.pool, s.vms[id], va, pa).1
    case _ => true
  }

  /** Two address spaces with the same ledger entries have the same map. */
  lemma SameMap(s: Sys, free: seq<nat>, owner: map<nat, Place>,
                s': Sys, free': seq<nat>, owner': map<nat, Place>, id: nat)
    requires Inv(s, free, owner) && Inv(s', free', owner') && id in s.vms && id in s'.vms
    requires forall p, i, j :: (p in owner && owner[p] == Mapped(id, i, j)) <==> (p in owner' &&
               owner'[p] == Mapped(id, i, j))
    ensures UserMap(s', id) == UserMap(s, id)
  {
    hide Inv, UserMap;
    var m, m' := UserMap(s, id), UserMap(s', id);
    forall n | n in m || n in m' ensures n in m && n in m' && m[n] == m'[n] {
      MapDomain(s, id, n);
      MapDomain(s', id, n);
      if n in m {
        MapIsLedger(s, free, owner, id, n, m[n]);
        MapIsLedger(s', free', owner', id, n, m[n]);
      } else {
        MapIsLedger(s, free, owner, id, n, m'[n]);
        MapIsLedger(s', free', owner', id, n, m'[n]);
      }
    }
  }

  lemma MapDomain(s: Sys, id: nat, n: nat)
    requires id in s.vms
    ensures n in UserMap(s, id) ==> n < USER_PAGES
  {
  }

  lemma MapPageRefines(s: Sys, free: seq<nat>, owner: map<nat, Place>, id: nat, va: nat, pa: nat)
    requires Inv(s, free, owner) && Allowed(s, MapPage(id, va, pa))
    ensures var op := MapPage(id, va, pa);
            MapsOf(Step(s, op)) == AbsStep(MapsOf(s), op, Succeeds(s, op))
  {
    hide Inv, UserMap, L2Index, L3Index, MapUser, IsTable, IsValid, PaOf;
    var op := MapPage(id, va, pa);
    var s' := Step(s, op);
    var free', owner' := MapKeeps(s, free, owner, id, va, pa);
    forall id' | id' in s.vms
      ensures UserMap(s', id') == if id' == id && Succeeds(s, op) then UserMap(s, id)[PageOf(va) := pa]
                else UserMap(s, id')
    {
      if id' != id || !Succeeds(s, op) {
        SameMap(s, free, owner, s', free', owner', id');
      } else {
        MapAdds(s, free, owner, s', free', owner', id, va, pa);
      }
    }
  }

  lemma MapAdds(s: Sys, free: seq<nat>, owner: map<nat, Place>,
                s': Sys, free': seq<nat>, owner': map<nat, Place>, id: nat, va: nat, pa: nat)
    requires Inv(s, free, owner) && Inv(s', free', owner') && id in s.vms && id in s'.vms && va < USER_LIMIT
    requires SameMapped(owner, owner', pa) && pa in owner && owner[pa] == Held
    requires owner'[pa] == Mapped(id, L2Index(va), L3Index(va))
    requires !IsValid(UserEntry(s.pool.mem, s.vms[id], va))
    ensures UserMap(s', id) == UserMap(s, id)[PageOf(va) := pa]
  {
    hide Inv, UserMap, L2Index, L3Index, IsTable, IsValid, PaOf;
    var m, m', x := UserMap(s, id), UserMap(s', id), PageOf(va);
    Indices(va);
    forall n | n in m' || n in m[x := pa] ensures n in m' && n in m[x := pa] && m'[n] == m[x := pa][n] {
      MapDomain(s, id, n);
      MapDomain(s', id, n);
      if n == x {
        MapIsLedger(s', free', owner', id, x, pa);
      } else if n in m {
        MapIsLedger(s, free, owner, id, n, m[n]);
        MapIsLedger(s', free', owner', id, n, m[n]);
      } else {
        MapIsLedger(s, free, owner, id, n, m'[n]);
        MapIsLedger(s', free', owner', id, n, m'[n]);
      }
    }
  }

  lemma UnmapRefines(s: Sys, free: seq<nat>, owner: map<nat, Place>, id: nat, va: nat)
    requires Inv(s, free, owner) && Allowed(s, UnmapPage(id, va))
    ensures MapsOf(Step(s, UnmapPage(id, va))) == AbsStep(MapsOf(s), UnmapPage(id, va), true)
  {
    hide Inv, UserMap, L2Index, L3Index, UnmapUser, IsTable, IsValid, PaOf;
    var s' := Step(s, UnmapPage(id, va));
    var free', owner' := UnmapKeeps(s, free, owner, id, va);
    var x := PageOf(va);
    Indices(va);
    var e := UserEntry(s.pool.mem, s.vms[id], va);
    EntryInMap(s, id, va);
    if !IsValid(e) {
      assert UserMap(s, id) - {x} == UserMap(s, id);
    } else {
      forall id' | id' in s.vms && id' != id ensures UserMap(s', id') == UserMap(s, id') {
        SameMap(s, free, owner, s', free', owner', id');
      }
      MapDrops(s, free, owner, s', free', owner', id, x);
    }
  }

  lemma EntryInMap(s: Sys, id: nat, va: nat)
    requires id in s.vms && va < USER_LIMIT
    ensures var e := UserEntry(s.pool.mem, s.vms[id], va);
            if IsValid(e) then PageOf(va) in UserMap(s, id) && UserMap(s, id)[PageOf(va)] == PaOf(e)
            else PageOf(va) !in UserMap(s, id)
  {
    hide IsTable, IsValid, PaOf, L2Index, L3Index;
    Indices(va);
    assert UserEntry(s.pool.mem, s.vms[id], va) == UserEntry(s.pool.mem, s.vms[id], va / PAGE_SIZE * PAGE_SIZE);
  }

  lemma MapDrops(s: Sys, free: seq<nat>, owner: map<nat, Place>,
                 s': Sys, free': seq<nat>, owner': map<nat, Place>, id: nat, x: nat)
    requires Inv(s, free, owner) && Inv(s', free', owner') && id in s.vms && id in s'.vms && x < USER_PAGES
    requires x in UserMap(s, id)
    requires var p := UserMap(s, id)[x]; SameMapped(owner, owner', p) && p in owner' && !owner'[p].Mapped?
    ensures UserMap(s', id) == UserMap(s, id) - {x}
  {
    hide Inv, UserMap, L2Index, L3Index, IsTable, IsValid, PaOf;
    var m, m' := UserMap(s, id), UserMap(s', id);
    MapIsLedger(s, free, owner, id, x, m[x]);
    if x in m' {
      MapIsLedger(s', free', owner', id, x, m'[x]);
      MapIsLedger(s, free, owner, id, x, m'[x]);
    }
    forall n | n != x && (n in m || n in m') ensures n in m && n in m' && m[n] == m'[n] {
      MapDomain(s, id, n);
      MapDomain(s', id, n);
      if n in m {
        MapIsLedger(s, free, owner, id, n, m[n]);
        MapIsLedger(s', free', owner', id, n, m[n]);
      } else {
        MapIsLedger(s, free, owner, id, n, m'[n]);
        MapIsLedger(s', free', owner', id, n, m'[n]);
      }
    }
  }

  lemma CreateRefines(s: Sys, free: seq<nat>, owner: map<nat, Place>, id: nat)
    requires Inv(s, free, owner) && id !in s.vms
    ensures MapsOf(Step(s, CreateVm(id))) == AbsStep(MapsOf(s), CreateVm(id), Succeeds(s, CreateVm(id)))
  {
    hide Inv, UserMap, Create;
    var s' := Step(s, CreateVm(id));
    var free', owner' := CreateKeeps(s, free, owner, id);
    forall id' | id' in s.vms ensures UserMap(s', id') == UserMap(s, id') {
      SameMap(s, free, owner, s', free', owner', id');
    }
    if id in s'.vms {
      forall n | n in UserMap(s', id) ensures false {
        MapDomain(s', id, n);
        var p := UserMap(s', id)[n];
        MapIsLedger(s', free', owner', id, n, p);
        assert owner[p] == owner'[p];
        NoPlace(s, free, owner, id, p);
      }
      assert UserMap(s', id) == map[];
    }
  }

  lemma NoPlace(s: Sys, free: seq<nat>, owner: map<nat, Place>, id: nat, p: nat)
    requires Inv(s, free, owner) && id !in s.vms && p in owner
    ensures !(owner[p].Mapped? && owner[p].id == id)
  {
    assert At(s, free, p, owner[p]);
  }

  lemma QuietRefines(s: Sys, free: seq<nat>, owner: map<nat, Place>, op: Op)
    requires Inv(s, free, owner) && Allowed(s, op) && (op.GetPage? || op.PutPage? || op.WriteWord? || op.DestroyVm?)
    ensures MapsOf(Step(s, op)) == AbsStep(MapsOf(s), op, true)
  {
    hide Inv, UserMap, Destroy, IsTable, IsValid, PaOf, At;
    var s' := Step(s, op);
    var free', owner';
    match op {
      case GetPage =>
        AllocCase(s, free, owner);
        if free == [] {
          free', owner' := free, owner;
        } else {
          free', owner' := free[1..], owner[free[0] := Held];
        }
      case PutPage(p) =>
        FreeKeeps(s, free, owner, p);
        free', owner' := [p] + free, owner[p := InFree];
      case DestroyVm(id) =>
        free' := DestroyReturnsAll(s, free, owner, id);
        owner' := DestroyedOwner(owner, id);
      case WriteWord(p, k, v) =>
        free', owner' := free, owner;
        if p in s.held {
          HeldOwner(s, free, owner, p);
        } else {
          var id, va :| MappedAt(s, id, va, p);
          MappedOwner(s, free, owner, id, va, p);
        }
        WriteKeeps(s, free, owner, p, k, v);
    }
    forall id | id in s'.vms ensures UserMap(s', id) == UserMap(s, id) {
      SameMap(s, free, owner, s', free', owner', id);
    }
  }

  /** Every step of the page-table code is the abstract step on the finite maps. */
  lemma StepRefines(s: Sys, free: seq<nat>, owner: map<nat, Place>, op: Op)
    requires Inv(s, free, owner) && Allowed(s, op)
    ensures MapsOf(Step(s, op)) == AbsStep(MapsOf(s), op, Succeeds(s, op))
  {
    hide Inv, Step, MapsOf, AbsStep;
    match op
    case CreateVm(id) => CreateRefines(s, free, owner, id);
    case MapPage(id, va, pa) => MapPageRefines(s, free, owner, id, va, pa);
    case UnmapPage(id, va) => UnmapRefines(s, free, owner, id, va);
    case _ => QuietRefines(s, free, owner, op);
  }

  /** Whether each operation of a run succeeds. */
  ghost function Outcomes(s: Sys, ops: seq<Op>, t: Sys): (oks: seq<bool>)
    requires Run(s, ops, t)
    ensures |oks| == |ops|
    decreases |ops|
  {
    if ops == [] then [] else [Succeeds(s, ops[0])] + Outcomes(Step(s, ops[0]), ops[1..], t)
  }

  /** The abstract run: finite maps only. */
  ghost function AbsRun(maps: Maps, ops: seq<Op>, oks: seq<bool>): Maps
    requires |oks| == |ops|
    decreases |ops|
  {
    if ops == [] then maps else AbsRun(AbsStep(maps, ops[0], oks[0]), ops[1..], oks[1..])
  }

  /** Over every run the translations of all address spaces are those of the finite maps. */
  lemma {:induction false} RunRefines(s: Sys, ops: seq<Op>, t: Sys, enrolled: set<nat>)
    requires OwnedOnce(s, enrolled) && Run(s, ops, t)
    ensures MapsOf(t) == AbsRun(MapsOf(s), ops, Outcomes(s, ops, t))
    decreases |ops|
  {
    hide Inv, Allowed, Step, MapsOf, AbsStep, Succeeds;
    if ops != [] {
      var free, owner :| Inv(s, free, owner) && owner.Keys == enrolled;
      var free', owner' := StepKeeps(s, free, owner, ops[0]);
      StepRefines(s, free, owner, ops[0]);
      assert OwnedOnce(Step(s, ops[0]), enrolled);
      RunRefines(Step(s, ops[0]), ops[1..], t, enrolled);
      assert Outcomes(s, ops, t)[1..] == Outcomes(Step(s, ops[0]), ops[1..], t);
    }
  }
}
