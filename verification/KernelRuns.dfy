/** The kernel object together with its address spaces: every operation, carried out in place
    by the `Kernel` methods, keeps each page in exactly one place. */
module KernelRuns {
  import opened Descriptors
  import opened Pmm
  import opened PageTables
  import opened PageOwnership
  import opened PageLifecycle
  import opened PageRuns
  import opened KernelMemory

  /** The live address spaces. `sys` is the state they and the kernel are in; `free` and
      `owner` are its free list and the ledger of all pages. */
  class System {
    const kernel: Kernel
    var vms: map<nat, VmMap>
    ghost var sys: Sys
    ghost var free: seq<nat>
    ghost var owner: map<nat, Place>

    constructor (kernel: Kernel, ghost free: seq<nat>)
      requires FreeIs(kernel.View(), free) && (forall p :: p in free ==> Frame(p))
      requires var b, mem := kernel.boot, kernel.mem;
               && b.l0 in mem && b.l1 in mem && b.l2 in mem && b.l0 !in free && b.l1 !in free && b.l2 !in free
               && forall i :: 0 <= i < ENTRIES ==> !IsTable(mem[b.l2][i])
      ensures Valid() && this.kernel == kernel && this.free == free
      ensures sys == Sys(kernel.View(), kernel.boot, map[], {}) && owner.Keys == SetOf(free)
    {
      this.kernel, vms, sys := kernel, map[], Sys(kernel.View(), kernel.boot, map[], {});
      this.free, owner := free, map p | p in SetOf(free) :: InFree;
      new;
      ListMembers(kernel.mem, kernel.freelist, free);
    }

    /** `sys` is what memory and the records hold; each address space has its own record. */
    ghost predicate Mirrors()
      reads this, kernel, vms.Values
    {
      && sys.pool == kernel.View() && sys.boot == kernel.boot && sys.vms.Keys == vms.Keys
      && (forall id :: id in vms ==> sys.vms[id] == vms[id].Tables())
      && (forall a, b :: a in vms && b in vms && vms[a] == vms[b] ==> a == b)
    }

    /** The ledger is right: each page is in exactly one place. */
    ghost predicate Valid()
      reads this, kernel, vms.Values
    {
      Mirrors() && Inv(sys, free, owner)
    }

    /** A caller takes a page: the front of the free list, or none. */
    method GetPage() returns (p: nat)
      requires Valid()
      modifies this`sys, this`free, this`owner, kernel
      ensures Valid() && sys == Step(old(sys), Op.GetPage)
      ensures if old(free) == [] then p == 0 && free == [] && owner == old(owner)
              else p == old(free)[0] && free == old(free)[1..] && owner == old(owner)[p := Held]
    {
      hide Inv;
      AllocCase(sys, free, owner);
      p := kernel.PmmAlloc();
      sys := Step(sys, Op.GetPage);
      if p != 0 {
        free, owner := free[1..], owner[p := Held];
      }
    }

    /** A caller gives back a page it holds. */
    method PutPage(p: nat)
      requires Valid() && Allowed(sys, Op.PutPage(p))
      modifies this`sys, this`free, this`owner, kernel
      ensures Valid() && sys == Step(old(sys), Op.PutPage(p))
      ensures free == [p] + old(free) && owner == old(owner)[p := InFree]
    {
      hide Inv;
      FreeKeeps(sys, free, owner, p);
      kernel.PmmFree(p);
      sys := Step(sys, Op.PutPage(p));
      free, owner := [p] + free, owner[p := InFree];
    }

    /** A new address space, with a record of its own, takes the first three free pages; with
        fewer, nothing changes but the order of the list. */
    method CreateVm(id: nat, vm: VmMap) returns (ok: bool)
      requires Valid() && id !in sys.vms && forall a :: a in vms ==> vms[a] != vm
      modifies this, kernel, vm
      ensures Valid() && Creates(old(sys), old(free), old(owner), id, sys, free, owner) && ok == (|old(free)| >= 3)
      ensures !ok ==> vms == old(vms)
    {
      hide Inv, Creates, Step, VmMap.Tables;
      ghost var s', free', owner';
      ok, s', free', owner' := FillTables(id, vm);
      sys, free, owner := s', free', owner';
      if ok { vms := vms[id := vm]; }
    }

    /** The kernel's part of it: memory and the new record, with the ledger they amount to. */
    method FillTables(id: nat, vm: VmMap)
      returns (ok: bool, ghost s': Sys, ghost free': seq<nat>, ghost owner': map<nat, Place>)
      requires Valid() && id !in sys.vms && forall a :: a in vms ==> vms[a] != vm
      modifies kernel, vm
      ensures Inv(s', free', owner') && Creates(sys, free, owner, id, s', free', owner') && ok == (|free| >= 3)
      ensures s' == sys.(pool := kernel.View(), vms := if ok then sys.vms[id := vm.Tables()] else sys.vms)
    {
      hide Inv, Create, Creates, FreeIs, Step;
      free', owner' := Created(sys, free, owner, id);
      BootOff(sys, free, owner);
      ok := kernel.VmapCreate(vm, free);
      s' := sys.(pool := kernel.View(), vms := if ok then sys.vms[id := vm.Tables()] else sys.vms);
    }

    /** A held page is mapped at an unmapped user address, unless a table is needed and none
        is left. */
    method MapPage(id: nat, va: nat, pa: nat) returns (ok: bool)
      requires Valid() && Allowed(sys, Op.MapPage(id, va, pa))
      modifies this`sys, this`free, this`owner, kernel
      ensures Valid() && sys == Step(old(sys), Op.MapPage(id, va, pa))
      ensures var i, place := L2Index(va), Mapped(id, L2Index(va), L3Index(va));
              if IsTable(L2Entry(old(sys), id, i)) then
                ok && free == old(free) && owner == old(owner)[pa := place]
              else if old(free) == [] then !ok && free == [] && owner == old(owner)
              else ok && free == old(free)[1..] && owner == old(owner)[old(free)[0] := L3(id, i)][pa := place]
    {
      hide Inv, MapUser, IsValid, IsTable, L2Index, L3Index;
      ghost var free', owner' := MapKeeps(sys, free, owner, id, va, pa);
      ok := kernel.VmapMapUser4k(vms[id], va, pa);
      sys, free, owner := Step(sys, Op.MapPage(id, va, pa)), free', owner';
    }

    /** A mapped page is unmapped and freed; an unmapped address changes nothing. */
    method UnmapPage(id: nat, va: nat) returns (pa: nat)
      requires Valid() && Allowed(sys, Op.UnmapPage(id, va))
      modifies this`sys, this`free, this`owner, kernel
      ensures Valid() && sys == Step(old(sys), Op.UnmapPage(id, va))
      ensures var e := UserEntry(old(sys).pool.mem, old(sys).vms[id], va);
              if IsValid(e) then pa == PaOf(e) && free == [pa] + old(free) && owner == old(owner)[pa := InFree]
              else sys == old(sys) && free == old(free) && owner == old(owner)
    {
      hide Inv, UnmapUser, IsValid, PaOf, L2Index, L3Index;
      ghost var free', owner' := UnmapKeeps(sys, free, owner, id, va);
      pa := kernel.VmapUnmapUser4k(vms[id], va);
      sys, free, owner := Step(sys, Op.UnmapPage(id, va)), free', owner';
    }

    /** Teardown: every page of the address space, and no other, is back on the free list. */
    method DestroyVm(id: nat)
      requires Valid() && Allowed(sys, Op.DestroyVm(id)) && id in vms
      modifies this, kernel, vms[id]
      ensures Valid() && sys == Step(old(sys), Op.DestroyVm(id)) && owner == DestroyedOwner(old(owner), id)
    {
      hide Inv, Destroy, DestroyedOwner;
      ghost var free' := DestroyReturnsAll(sys, free, owner, id);
      kernel.VmapDestroy(vms[id]);
      sys, free, owner := Step(sys, Op.DestroyVm(id)), free', DestroyedOwner(owner, id);
      vms := vms - {id};
    }
  }

  /** What a creation does to the state, the free list and the ledger: three pages become the
      new tables, or, with fewer, the same pages are back on the list. */
  ghost predicate Creates(s: Sys, free: seq<nat>, owner: map<nat, Place>, id: nat,
                          s': Sys, free': seq<nat>, owner': map<nat, Place>) {
    && id !in s.vms && s' == Step(s, Op.CreateVm(id))
    && if |free| >= 3 then free' == free[3..] && owner' == CreatedOwner(owner, free, id)
       else free' == (if |free| == 2 then [free[1], free[0]] else free) && owner' == owner
  }

  lemma Created(s: Sys, free: seq<nat>, owner: map<nat, Place>, id: nat)
    returns (free': seq<nat>, owner': map<nat, Place>)
    requires Inv(s, free, owner) && id !in s.vms
    ensures var (pool', vm) := Create(s.pool, s.boot);
            var s' := s.(pool := pool', vms := if vm == NoVm then s.vms else s.vms[id := vm]);
            Inv(s', free', owner') && Creates(s, free, owner, id, s', free', owner') && (vm != NoVm <==> |free| >= 3)
  {
    hide Inv;
    free', owner' := CreateKeeps(s, free, owner, id);
  }

  /** The boot tables are in memory and never on the free list. */
  lemma BootOff(s: Sys, free: seq<nat>, owner: map<nat, Place>)
    requires Inv(s, free, owner)
    ensures FreeIs(s.pool, free)
    ensures s.boot.l0 in s.pool.mem && s.boot.l1 in s.pool.mem && s.boot.l2 in s.pool.mem
    ensures s.boot.l0 !in free && s.boot.l1 !in free && s.boot.l2 !in free
  {
    hide IsTable, IsValid, PaOf;
    assert !At(s, free, s.boot.l0, InFree) && !At(s, free, s.boot.l1, InFree) && !At(s, free, s.boot.l2, InFree);
  }
}
