/** Whole runs: any sequence of page requests, address-space creations, user mappings,
    unmappings and teardowns, on any number of address spaces.  Ownership is kept, and
    the user translations follow an abstract table of finite maps. */
module PageRuns {
  import opened Descriptors
  import opened Pmm
  import opened Seqs
  import opened PageTables
  import opened PageOwnership
  import opened PageLifecycle

  datatype Op =
    | GetPage
    | PutPage(p: nat)
    | WriteWord(p: nat, k: nat, v: nat)
    | CreateVm(id: nat)
    | MapPage(id: nat, va: nat, pa: nat)
    | UnmapPage(id: nat, va: nat)
    | DestroyVm(id: nat)

  ghost predicate MappedAt(s: Sys, id: nat, va: nat, p: nat) {
    && id in s.vms && va < USER_LIMIT
    && IsValid(UserEntry(s.pool.mem, s.vms[id], va)) && PaOf(UserEntry(s.pool.mem, s.vms[id], va)) == p
  }

  /** What the kernel's own callers respect: a page is given back, written or mapped only
      by whoever holds it, and a user page is mapped only where nothing is mapped. */
  ghost predicate Allowed(s: Sys, op: Op) {
    match op
    case GetPage => true
    case PutPage(p) => p in s.held
    case WriteWord(p, k, v) => k < WORDS && (p in s.held || exists id, va :: MappedAt(s, id, va, p))
    case CreateVm(id) => id !in s.vms
    case MapPage(id, va, pa) =>
      id in s.vms && va < USER_LIMIT && pa in s.held && !IsValid(UserEntry(s.pool.mem, s.vms[id], va))
    case UnmapPage(id, va) => id in s.vms && va < USER_LIMIT
    case DestroyVm(id) => id in s.vms
  }

  ghost function Step(s: Sys, op: Op): Sys
    requires Allowed(s, op)
  {
    match op
    case GetPage =>
      var (pool', p) := Alloc(s.pool);
      s.(pool := pool', held := if p == 0 then s.held else s.held + {p})
    case PutPage(p) => s.(pool := Free(s.pool, p), held := s.held - {p})
    case WriteWord(p, k, v) => s.(pool := s.pool.(mem := Poke(s.pool.mem, p, k, v)))
    case CreateVm(id) =>
      var (pool', vm) := Create(s.pool, s.boot);
      if vm == NoVm then s.(pool := pool') else s.(pool := pool', vms := s.vms[id := vm])
    case MapPage(id, va, pa) =>
      var (pool', ok) := MapUser(s.pool, s.vms[id], va, pa);
      s.(pool := pool', held := if ok then s.held - {pa} else s.held)
    case UnmapPage(id, va) => s.(pool := UnmapUser(s.pool, s.vms[id], va).0)
    case DestroyVm(id) => s.(pool := Destroy(s.pool, s.vms[id]), vms := s.vms - {id})
  }

  // ---- what a step does to the mapped pages ----

  /** Mapped places agree, except perhaps for page `x`. */
  ghost predicate SameMapped(owner: map<nat, Place>, owner': map<nat, Place>, x: nat) {
    && owner'.Keys == owner.Keys
    && forall p :: p in owner && p != x && (owner[p].Mapped? || owner'[p].Mapped?) ==> owner'[p] == owner[p]
  }

  lemma CreateKeeps(s: Sys, free: seq<nat>, owner: map<nat, Place>, id: nat)
    returns (free': seq<nat>, owner': map<nat, Place>)
    requires Inv(s, free, owner) && id !in s.vms
    ensures Inv(Step(s, CreateVm(id)), free', owner') && SameMapped(owner, owner', 0) && 0 !in owner
    ensures Create(s.pool, s.boot).1 != NoVm <==> |free| >= 3
    ensures |free| >= 3 ==>
              free' == free[3..] && owner' == owner[free[0] := L0(id)][free[1] := L1(id)][free[2] := L2(id)]
    ensures |free| < 3 ==> owner' == owner && free' == if |free| == 2 then [free[1], free[0]] else free
  {
    hide Inv, Step, Create, AttachedOwner;
    assert 0 !in owner by { ZeroNotOwned(s, free, owner); }
    if |free| < 3 {
      free' := CreateFails(s, free, owner, id);
      owner' := owner;
    } else {
      CreateSucceeds(s, free, owner, id);
      free', owner' := free[3..], CreatedOwner(owner, free, id);
    }
  }

  /** The first three free pages become the tables of address space `id`. */
  ghost function CreatedOwner(owner: map<nat, Place>, free: seq<nat>, id: nat): map<nat, Place>
    requires |free| >= 3
  {
    owner[free[0] := L0(id)][free[1] := L1(id)][free[2] := L2(id)]
  }

  lemma CreateFails(s: Sys, free: seq<nat>, owner: map<nat, Place>, id: nat) returns (free': seq<nat>)
    requires Inv(s, free, owner) && id !in s.vms && |free| < 3
    ensures Inv(Step(s, CreateVm(id)), free', owner) && Create(s.pool, s.boot).1 == NoVm
    ensures free' == if |free| == 2 then [free[1], free[0]] else free
  {
    hide Inv, Wire, Alloc;
    AllocCase(s, free, owner);
    var (p1, l0) := Alloc(s.pool);
    if free == [] {
      return free;
    }
    var s1, owner1 := s.(pool := p1, held := s.held + {l0}), owner[l0 := Held];
    AllocCase(s1, free[1..], owner1);
    var (p2, l1) := Alloc(p1);
    if |free| == 1 {
      FreeKeeps(s1, [], owner1, l0);
      assert s1.held - {l0} == s.held;
      assert owner1[l0 := InFree] == owner;
      return [l0] + [];
    }
    var s2, owner2 := s1.(pool := p2, held := s1.held + {l1}), owner1[l1 := Held];
    assert free[1..][1..] == [];
    AllocCase(s2, [], owner2);
    free' := ReturnTwo(s, owner, s2, [], owner2, l0, l1);
  }

  /** Held for a moment, then tables: the ledger after a creation. */
  lemma CreatedIs(owner: map<nat, Place>, free: seq<nat>, id: nat, vm: Vm)
    requires |free| >= 3 && vm == Vm(free[0], free[1], free[2])
    requires free[0] in owner && free[1] in owner && free[2] in owner
    requires owner[free[0]] == owner[free[1]] == owner[free[2]] == InFree
    ensures AttachedOwner(owner[free[0] := Held][free[1] := Held][free[2] := Held], id, vm)
         == CreatedOwner(owner, free, id)
    ensures SameMapped(owner, CreatedOwner(owner, free, id), 0)
  {
  }

  lemma CreateSucceeds(s: Sys, free: seq<nat>, owner: map<nat, Place>, id: nat)
    requires Inv(s, free, owner) && id !in s.vms && |free| >= 3
    ensures Inv(Step(s, CreateVm(id)), free[3..], CreatedOwner(owner, free, id)) && Create(s.pool, s.boot).1 != NoVm
    ensures SameMapped(owner, CreatedOwner(owner, free, id), 0)
  {
    hide Inv, Wire, Alloc, AttachedOwner, CreatedOwner, SameMapped;
    AllocCase(s, free, owner);
    var (p1, l0) := Alloc(s.pool);
    var s1, owner1 := s.(pool := p1, held := s.held + {l0}), owner[l0 := Held];
    AllocCase(s1, free[1..], owner1);
    var (p2, l1) := Alloc(p1);
    var s2, owner2 := s1.(pool := p2, held := s1.held + {l1}), owner1[l1 := Held];
    assert free[1..][1..] == free[2..];
    AllocCase(s2, free[2..], owner2);
    var (p3, l2) := Alloc(p2);
    var s3, owner3 := s2.(pool := p3, held := s2.held + {l2}), owner2[l2 := Held];
    assert free[2..][1..] == free[3..];
    var vm := Vm(l0, l1, l2);
    AttachKeeps(s3, free[3..], owner3, id, vm);
    CreatedIs(owner, free, id, vm);
    assert Attached(s3, id, vm).held == s.held;
  }

  /** A failed creation gives both pages back. */
  lemma ReturnTwo(s: Sys, owner: map<nat, Place>, s2: Sys, free2: seq<nat>, owner2: map<nat, Place>, l0: nat, l1: nat)
    returns (free': seq<nat>)
    requires Inv(s2, free2, owner2) && l0 != l1 && l0 !in s.held && l1 !in s.held
    requires s2 == s.(pool := s2.pool, held := s.held + {l0} + {l1})
    requires l0 in owner && l1 in owner && owner[l0] == owner[l1] == InFree && owner2 == owner[l0 := Held][l1 := Held]
    ensures Inv(s.(pool := Free(Free(s2.pool, l0), l1)), free', owner) && free' == [l1] + ([l0] + free2)
  {
    hide Inv, Free;
    FreeKeeps(s2, free2, owner2, l0);
    var t := s2.(pool := Free(s2.pool, l0), held := s2.held - {l0});
    FreeKeeps(t, [l0] + free2, owner2[l0 := InFree], l1);
    free' := [l1] + ([l0] + free2);
    assert t.held - {l1} == s.held;
    assert owner2[l0 := InFree][l1 := InFree] == owner;
  }

  lemma ZeroNotOwned(s: Sys, free: seq<nat>, owner: map<nat, Place>)
    requires Inv(s, free, owner)
    ensures 0 !in owner
  {
  }

  /** One allocation by a caller, with the facts the other operations build on. */
  lemma AllocCase(s: Sys, free: seq<nat>, owner: map<nat, Place>)
    requires Inv(s, free, owner)
    ensures var (pool', p) := Alloc(s.pool);
            if free == [] then p == 0 && pool' == s.pool
            else
              && p == free[0] && p != 0 && p !in s.held && p in owner && owner[p] == InFree
              && Inv(s.(pool := pool', held := s.held + {p}), free[1..], owner[p := Held])
              && p in pool'.mem && pool'.mem[p] == ZeroPage
              && (forall q :: q in s.pool.mem && q != p ==> q in pool'.mem && pool'.mem[q] == s.pool.mem[q])
  {
    AllocPops(s.pool, free);
    if free != [] {
      AllocKeeps(s, free, owner);
      assert !At(s, free, free[0], Held);
    }
  }

  /** The entries the code reads are those the ownership invariant speaks about. */
  lemma UserEntryIs(s: Sys, free: seq<nat>, owner: map<nat, Place>, id: nat, va: nat)
    requires Inv(s, free, owner) && id in s.vms
    ensures UserEntry(s.pool.mem, s.vms[id], va)
         == if IsTable(L2Entry(s, id, L2Index(va))) then L3Entry(s, id, L2Index(va), L3Index(va)) else 0
  {
    NonZero(s, free, owner, id);
  }

  lemma MapKeeps(s: Sys, free: seq<nat>, owner: map<nat, Place>, id: nat, va: nat, pa: nat)
    returns (free': seq<nat>, owner': map<nat, Place>)
    requires Inv(s, free, owner) && Allowed(s, MapPage(id, va, pa))
    ensures Inv(Step(s, MapPage(id, va, pa)), free', owner') && SameMapped(owner, owner', pa)
    ensures pa in owner && owner[pa] == Held
    ensures owner'[pa] == if MapUser(s.pool, s.vms[id], va, pa).1 then Mapped(id, L2Index(va), L3Index(va)) else Held
    ensures !MapUser(s.pool, s.vms[id], va, pa).1 <==> free == [] && !IsTable(L2Entry(s, id, L2Index(va)))
    ensures var i, place := L2Index(va), Mapped(id, L2Index(va), L3Index(va));
            if IsTable(L2Entry(s, id, i)) then free' == free && owner' == owner[pa := place]
            else if free == [] then free' == free && owner' == owner
            else free' == free[1..] && owner' == owner[free[0] := L3(id, i)][pa := place]
  {
    hide IsTable, IsValid, PaOf, TableDesc, PageDesc, Inv, L2Index, L3Index;
    var i, j := L2Index(va), L3Index(va);
    UserEntryIs(s, free, owner, id, va);
    NonZero(s, free, owner, id);
    HeldOwner(s, free, owner, pa);
    if IsTable(L2Entry(s, id, i)) {
      InstallKeeps(s, free, owner, id, i, j, pa);
      TableNonZero(s, free, owner, id, i);
      free', owner' := free, owner[pa := Mapped(id, i, j)];
    } else if free == [] {
      AllocCase(s, free, owner);
      free', owner' := free, owner;
    } else {
      AllocCase(s, free, owner);
      var (p1, l3) := Alloc(s.pool);
      var s1, owner1 := s.(pool := p1, held := s.held + {l3}), owner[l3 := Held];
      L2NotFree(s, free, owner, id);
      assert L2Entry(s1, id, i) == L2Entry(s, id, i);
      PromoteKeeps(s1, free[1..], owner1, id, i, l3);
      var s2, owner2 := Promoted(s1, id, i, l3), owner1[l3 := L3(id, i)];
      FreshTable(s1, free[1..], owner1, id, i, l3);
      InstallKeeps(s2, free[1..], owner2, id, i, j, pa);
      free', owner' := free[1..], owner2[pa := Mapped(id, i, j)];
      assert s2.held - {pa} == s.held - {pa};
      assert owner' == owner[l3 := L3(id, i)][pa := Mapped(id, i, j)];
    }
  }

  lemma TableNonZero(s: Sys, free: seq<nat>, owner: map<nat, Place>, id: nat, i: nat)
    requires Inv(s, free, owner) && id in s.vms && i < ENTRIES && IsTable(L2Entry(s, id, i))
    ensures PaOf(L2Entry(s, id, i)) != 0
  {
    assert At(s, free, PaOf(L2Entry(s, id, i)), L3(id, i));
  }

  lemma L2NotFree(s: Sys, free: seq<nat>, owner: map<nat, Place>, id: nat)
    requires Inv(s, free, owner) && id in s.vms
    ensures s.vms[id].l2 !in free && s.vms[id].l2 in s.pool.mem
  {
    assert At(s, free, s.vms[id].l2, L2(id));
    assert !At(s, free, s.vms[id].l2, InFree);
  }

  lemma FreshTable(s: Sys, free: seq<nat>, owner: map<nat, Place>, id: nat, i: nat, l3: nat)
    requires Inv(s, free, owner) && id in s.vms && i < ENTRIES
    requires l3 in s.held && l3 in s.pool.mem && s.pool.mem[l3] == ZeroPage
    ensures var s' := Promoted(s, id, i, l3);
            && IsTable(L2Entry(s', id, i)) && PaOf(L2Entry(s', id, i)) == l3
            && forall j :: 0 <= j < ENTRIES ==> !IsValid(L3Entry(s', id, i, j))
  {
    hide IsTable, IsValid, PaOf, TableDesc, PageDesc;
    HeldOwner(s, free, owner, l3);
    PromotedEntries(s, free, owner, id, i, l3, id);
    TableDescRoundTrip(l3);
    ZeroInvalid();
  }

  lemma UnmapKeeps(s: Sys, free: seq<nat>, owner: map<nat, Place>, id: nat, va: nat)
    returns (free': seq<nat>, owner': map<nat, Place>)
    requires Inv(s, free, owner) && id in s.vms && va < USER_LIMIT
    ensures Inv(Step(s, UnmapPage(id, va)), free', owner')
    ensures var e := UserEntry(s.pool.mem, s.vms[id], va);
            if IsValid(e) then
              && UnmapUser(s.pool, s.vms[id], va).1 == PaOf(e)
              && PaOf(e) in owner && owner[PaOf(e)] == Mapped(id, L2Index(va), L3Index(va))
              && SameMapped(owner, owner', PaOf(e)) && owner' == owner[PaOf(e) := InFree] && free' == [PaOf(e)] + free
            else owner' == owner && free' == free && Step(s, UnmapPage(id, va)) == s
  {
    hide IsTable, IsValid, PaOf, TableDesc, PageDesc, Inv, L2Index, L3Index;
    var i, j := L2Index(va), L3Index(va);
    UserEntryIs(s, free, owner, id, va);
    assert !IsValid(0) by { ZeroInvalid(); }
    var e := UserEntry(s.pool.mem, s.vms[id], va);
    if IsValid(e) {
      var p := PaOf(e);
      RemoveKeeps(s, free, owner, id, i, j);
      var s1, owner1 := WithL3(s, id, i, j, 0).(held := s.held + {p}), owner[p := Held];
      FreeKeeps(s1, free, owner1, p);
      free', owner' := [p] + free, owner1[p := InFree];
      NotHeld(s, free, owner, p);
      assert s1.held - {p} == s.held;
    } else {
      free', owner' := free, owner;
    }
  }

  lemma NotHeld(s: Sys, free: seq<nat>, owner: map<nat, Place>, p: nat)
    requires Inv(s, free, owner) && p in owner && owner[p] != Held
    ensures p !in s.held
  {
    assert !At(s, free, p, Held);
  }

  // ---- every step, every run ----

  lemma MappedOwner(s: Sys, free: seq<nat>, owner: map<nat, Place>, id: nat, va: nat, p: nat)
    requires Inv(s, free, owner) && MappedAt(s, id, va, p)
    ensures p in owner && owner[p] == Mapped(id, L2Index(va), L3Index(va))
  {
    hide IsTable, IsValid, PaOf, L2Index, L3Index;
    UserEntryIs(s, free, owner, id, va);
    assert !IsValid(0) by { ZeroInvalid(); }
    assert At(s, free, p, Mapped(id, L2Index(va), L3Index(va)));
  }

  lemma StepKeeps(s: Sys, free: seq<nat>, owner: map<nat, Place>, op: Op)
    returns (free': seq<nat>, owner': map<nat, Place>)
    requires Inv(s, free, owner) && Allowed(s, op)
    ensures Inv(Step(s, op), free', owner') && owner'.Keys == owner.Keys
  {
    hide IsTable, IsValid, PaOf, Inv, Create, Destroy, MapUser, UnmapUser;
    match op
    case GetPage =>
      AllocCase(s, free, owner);
      if free == [] {
        free', owner' := free, owner;
      } else {
        free', owner' := free[1..], owner[free[0] := Held];
      }
    case PutPage(p) =>
      FreeKeeps(s, free, owner, p);
      free', owner' := [p] + free, owner[p := InFree];
    case WriteWord(p, k, v) =>
      if p in s.held {
        HeldOwner(s, free, owner, p);
      } else {
        var id, va :| MappedAt(s, id, va, p);
        MappedOwner(s, free, owner, id, va, p);
      }
      WriteKeeps(s, free, owner, p, k, v);
      free', owner' := free, owner;
    case CreateVm(id) => free', owner' := CreateKeeps(s, free, owner, id);
    case MapPage(id, va, pa) => free', owner' := MapKeeps(s, free, owner, id, va, pa);
    case UnmapPage(id, va) => free', owner' := UnmapKeeps(s, free, owner, id, va);
    case DestroyVm(id) =>
      free' := DestroyReturnsAll(s, free, owner, id);
      owner' := DestroyedOwner(owner, id);
  }

  /** `ops` is a run from `s` to `t`, every operation allowed when it happens. */
  ghost predicate Run(s: Sys, ops: seq<Op>, t: Sys)
    decreases |ops|
  {
    if ops == [] then t == s
    else Allowed(s, ops[0]) && Run(Step(s, ops[0]), ops[1..], t)
  }

  /** The pages of `enrolled`, and no others, are each in exactly one place. */
  ghost predicate OwnedOnce(s: Sys, enrolled: set<nat>) {
    exists free, owner :: Inv(s, free, owner) && owner.Keys == enrolled
  }

  /** Page ownership over whole runs: no page is lost, duplicated or shared. */
  lemma {:induction false} RunKeepsOwnership(s: Sys, ops: seq<Op>, t: Sys, enrolled: set<nat>)
    requires OwnedOnce(s, enrolled) && Run(s, ops, t)
    ensures OwnedOnce(t, enrolled)
    decreases |ops|
  {
    hide Inv, Allowed, Step;
    if ops != [] {
      var free, owner :| Inv(s, free, owner) && owner.Keys == enrolled;
      var free', owner' := StepKeeps(s, free, owner, ops[0]);
      RunKeepsOwnership(Step(s, ops[0]), ops[1..], t, enrolled);
    }
  }

  /** What `OwnedOnce` means place by place, read off the actual lists and tables. */
  lemma ExactlyOnePlace(s: Sys, enrolled: set<nat>) returns (free: seq<nat>)
    requires OwnedOnce(s, enrolled)
    ensures IsList(s.pool.mem, s.pool.freelist, free) && NoDup(free) && s.pool.freeCount == |free|
    ensures forall p :: p in enrolled ==> exists pl :: At(s, free, p, pl)
    ensures forall p, pl :: At(s, free, p, pl) ==> p in enrolled
    ensures forall p, pl, pl' :: At(s, free, p, pl) && At(s, free, p, pl') ==> pl == pl'
    ensures s.boot.l0 !in enrolled && s.boot.l1 !in enrolled && s.boot.l2 !in enrolled
  {
    hide At, IsList;
    var f, owner :| Inv(s, f, owner) && owner.Keys == enrolled;
    free := f;
    forall p | p in enrolled ensures exists pl :: At(s, free, p, pl) {
      assert At(s, free, p, owner[p]);
    }
  }

  /** After boot, with every enrolled frame on the free list, the invariant holds. */
  lemma BootOwnership(s: Sys, free: seq<nat>)
    requires FreeIs(s.pool, free) && s.vms == map[] && s.held == {}
    requires forall p :: p in free ==> Frame(p)
    requires s.boot.l0 in s.pool.mem && s.boot.l1 in s.pool.mem && s.boot.l2 in s.pool.mem
    requires s.boot.l0 !in free && s.boot.l1 !in free && s.boot.l2 !in free
    requires forall i :: 0 <= i < ENTRIES ==> !IsTable(s.pool.mem[s.boot.l2][i])
    ensures OwnedOnce(s, SetOf(free))
  {
    hide IsTable, IsValid, PaOf;
    ListMembers(s.pool.mem, s.pool.freelist, free);
    var owner: map<nat, Place> := map p | p in SetOf(free) :: InFree;
    assert Inv(s, free, owner);
    assert owner.Keys == SetOf(free);
  }
}
