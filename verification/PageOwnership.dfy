/** Who owns which page.  Every page given to the allocator is in exactly one place:
    on the free list, a table of one live address space, mapped at one user page of one
    address space, or in a caller's hands.  The invariant is kept by every operation and
    so holds after every run. */
module PageOwnership {
  import opened Descriptors
  import opened Pmm
  import opened PageTables

  datatype Sys = Sys(pool: Pool, boot: Boot, vms: map<nat, Vm>, held: set<nat>)

  /** `Mapped(id, i, j)` is user page 512 * i + j of address space `id`. */
  datatype Place =
    | InFree
    | Held
    | L0(id: nat)
    | L1(id: nat)
    | L2(id: nat)
    | L3(id: nat, i: nat)
    | Mapped(id: nat, i: nat, j: nat)

  function L2Entry(s: Sys, id: nat, i: nat): nat
    requires id in s.vms && i < ENTRIES
  {
    Peek(s.pool.mem, s.vms[id].l2)[i]
  }

  function L3Entry(s: Sys, id: nat, i: nat, j: nat): nat
    requires id in s.vms && i < ENTRIES && j < ENTRIES
  {
    Peek(s.pool.mem, PaOf(L2Entry(s, id, i)))[j]
  }

  /** Page `p` is found at place `pl` by reading the actual state. */
  ghost predicate At(s: Sys, free: seq<nat>, p: nat, pl: Place) {
    match pl
    case InFree => p in free
    case Held => p in s.held
    case L0(id) => id in s.vms && s.vms[id].l0 == p
    case L1(id) => id in s.vms && s.vms[id].l1 == p
    case L2(id) => id in s.vms && s.vms[id].l2 == p
    case L3(id, i) =>
      id in s.vms && i < ENTRIES && IsTable(L2Entry(s, id, i)) && PaOf(L2Entry(s, id, i)) == p
    case Mapped(id, i, j) =>
      && id in s.vms && i < ENTRIES && j < ENTRIES && IsTable(L2Entry(s, id, i))
      && IsValid(L3Entry(s, id, i, j)) && PaOf(L3Entry(s, id, i, j)) == p
  }

  /** `owner` names the one place of every enrolled page, and nothing is anywhere else. */
  ghost predicate Ledger(s: Sys, free: seq<nat>, owner: map<nat, Place>) {
    forall p, pl :: At(s, free, p, pl) <==> p in owner && owner[p] == pl
  }

  ghost predicate BootShape(s: Sys, owner: map<nat, Place>) {
    var b, mem := s.boot, s.pool.mem;
    && b.l0 in mem && b.l1 in mem && b.l2 in mem
    && b.l0 !in owner && b.l1 !in owner && b.l2 !in owner
    && forall i :: 0 <= i < ENTRIES ==> !IsTable(mem[b.l2][i])
  }

  /** Entries of a live address space: its own tables, user pages, or the boot entry. */
  ghost predicate VmShape(s: Sys, id: nat)
    requires id in s.vms
  {
    var mem, b, vm := s.pool.mem, s.boot, s.vms[id];
    && Peek(mem, vm.l0) == Peek(mem, b.l0)[0 := TableDesc(vm.l1)]
    && Peek(mem, vm.l1) == Peek(mem, b.l1)[0 := TableDesc(vm.l2)]
    && (forall i :: 0 <= i < ENTRIES && !IsTable(L2Entry(s, id, i)) ==>
          L2Entry(s, id, i) == Peek(mem, b.l2)[i])
    && (forall i :: 0 <= i < ENTRIES && IsTable(L2Entry(s, id, i)) ==>
          L2Entry(s, id, i) == TableDesc(PaOf(L2Entry(s, id, i))))
    && (forall i, j | 0 <= i < ENTRIES && 0 <= j < ENTRIES :: IsTable(L2Entry(s, id, i)) ==>
          var e := L3Entry(s, id, i, j);
          IsValid(e) ==> e == PageDesc(PaOf(e)))
  }

  ghost predicate Inv(s: Sys, free: seq<nat>, owner: map<nat, Place>) {
    && FreeIs(s.pool, free)
    && Ledger(s, free, owner)
    && (forall p :: p in owner ==> Frame(p) && p in s.pool.mem)
    && BootShape(s, owner)
    && (forall id :: id in s.vms ==> VmShape(s, id))
  }

  predicate IsTablePlace(pl: Place) { pl.L0? || pl.L1? || pl.L2? || pl.L3? }

  // ---- steps that leave every table as it is ----

  ghost predicate SameTables(s: Sys, s': Sys, owner: map<nat, Place>) {
    && s'.vms == s.vms && s'.boot == s.boot
    && s'.pool.mem.Keys == s.pool.mem.Keys
    && forall q :: q in s.pool.mem && s'.pool.mem[q] != s.pool.mem[q] ==> q in owner && !IsTablePlace(owner[q])
  }

  lemma SameEntries(s: Sys, s': Sys, free: seq<nat>, owner: map<nat, Place>, id: nat)
    requires Inv(s, free, owner) && SameTables(s, s', owner) && id in s.vms
    ensures Peek(s'.pool.mem, s.vms[id].l0) == Peek(s.pool.mem, s.vms[id].l0)
    ensures Peek(s'.pool.mem, s.vms[id].l1) == Peek(s.pool.mem, s.vms[id].l1)
    ensures forall i :: 0 <= i < ENTRIES ==> L2Entry(s', id, i) == L2Entry(s, id, i)
    ensures forall i, j :: 0 <= i < ENTRIES && 0 <= j < ENTRIES && IsTable(L2Entry(s, id, i)) ==>
              L3Entry(s', id, i, j) == L3Entry(s, id, i, j)
  {
    hide IsTable, IsValid, PaOf, TableDesc, PageDesc, FreeIs, VmShape, BootShape;
    assert At(s, free, s.vms[id].l0, L0(id));
    assert At(s, free, s.vms[id].l1, L1(id));
    assert At(s, free, s.vms[id].l2, L2(id));
    forall i, j | 0 <= i < ENTRIES && 0 <= j < ENTRIES && IsTable(L2Entry(s, id, i))
      ensures L3Entry(s', id, i, j) == L3Entry(s, id, i, j)
    {
      assert At(s, free, PaOf(L2Entry(s, id, i)), L3(id, i));
    }
  }

  lemma KeepTables(s: Sys, s': Sys, free: seq<nat>, free': seq<nat>, owner: map<nat, Place>)
    requires Inv(s, free, owner) && SameTables(s, s', owner)
    ensures BootShape(s', owner)
    ensures forall id :: id in s'.vms ==> VmShape(s', id)
    ensures forall p, pl: Place :: !pl.InFree? && !pl.Held? ==> (At(s', free', p, pl) <==> At(s, free, p, pl))
  {
    hide IsTable, IsValid, PaOf, TableDesc, PageDesc, FreeIs, Ledger;
    forall id | id in s'.vms
      ensures VmShape(s', id)
    {
      SameEntries(s, s', free, owner, id);
      assert VmShape(s, id);
    }
    forall p, pl: Place | !pl.InFree? && !pl.Held?
      ensures At(s', free', p, pl) <==> At(s, free, p, pl)
    {
      if (pl.L3? || pl.Mapped?) && pl.id in s.vms { SameEntries(s, s', free, owner, pl.id); }
    }
  }

  lemma AllocKeeps(s: Sys, free: seq<nat>, owner: map<nat, Place>)
    requires Inv(s, free, owner) && free != []
    ensures var (pool', p) := Alloc(s.pool);
            && p == free[0] && p in owner && owner[p] == InFree
            && Inv(s.(pool := pool', held := s.held + {p}), free[1..], owner[p := Held])
            && pool'.mem == s.pool.mem[p := ZeroPage]
  {
    hide IsTable, IsValid, PaOf, TableDesc, PageDesc;
    AllocPops(s.pool, free);
    var (pool', p) := Alloc(s.pool);
    var s', owner' := s.(pool := pool', held := s.held + {p}), owner[p := Held];
    assert At(s, free, p, InFree);
    KeepTables(s, s', free, free[1..], owner);
    forall q, pl
      ensures At(s', free[1..], q, pl) <==> q in owner' && owner'[q] == pl
    {
      assert At(s, free, q, pl) <==> q in owner && owner[q] == pl;
      if pl.InFree? {
        assert free == [p] + free[1..];
      }
    }
  }

  lemma FreeKeeps(s: Sys, free: seq<nat>, owner: map<nat, Place>, p: nat)
    requires Inv(s, free, owner) && p in s.held
    ensures Inv(s.(pool := Free(s.pool, p), held := s.held - {p}), [p] + free, owner[p := InFree])
    ensures p in s.pool.mem && p in owner && owner[p] == Held
    ensures Free(s.pool, p).mem == s.pool.mem[p := s.pool.mem[p][0 := s.pool.freelist]]
  {
    hide IsTable, IsValid, PaOf, TableDesc, PageDesc;
    assert At(s, free, p, Held);
    assert !At(s, free, p, InFree);
    FreePushes(s.pool, free, p);
    var s', owner' := s.(pool := Free(s.pool, p), held := s.held - {p}), owner[p := InFree];
    KeepTables(s, s', free, [p] + free, owner);
    forall q, pl
      ensures At(s', [p] + free, q, pl) <==> q in owner' && owner'[q] == pl
    {
      assert At(s, free, q, pl) <==> q in owner && owner[q] == pl;
    }
  }

  /** Data written to a held or mapped page never reaches a table or the free list. */
  lemma WriteKeeps(s: Sys, free: seq<nat>, owner: map<nat, Place>, p: nat, i: nat, v: nat)
    requires Inv(s, free, owner) && i < WORDS
    requires p in owner && (owner[p].Held? || owner[p].Mapped?)
    ensures Inv(s.(pool := s.pool.(mem := Poke(s.pool.mem, p, i, v))), free, owner)
  {
    hide IsTable, IsValid, PaOf, TableDesc, PageDesc;
    var s' := s.(pool := s.pool.(mem := Poke(s.pool.mem, p, i, v)));
    ListMembers(s.pool.mem, s.pool.freelist, free);
    assert !At(s, free, p, InFree);
    ListFrame(s.pool.mem, s'.pool.mem, s.pool.freelist, free);
    KeepTables(s, s', free, free, owner);
    forall q, pl
      ensures At(s', free, q, pl) <==> q in owner && owner[q] == pl
    {
      assert At(s, free, q, pl) <==> q in owner && owner[q] == pl;
    }
  }

  // ---- an L3 table appears under an L2 entry ----

  function Promoted(s: Sys, id: nat, i: nat, l3: nat): Sys
    requires id in s.vms && i < ENTRIES
  {
    s.(pool := s.pool.(mem := Poke(s.pool.mem, s.vms[id].l2, i, TableDesc(l3))), held := s.held - {l3})
  }

  lemma PromotedEntries(s: Sys, free: seq<nat>, owner: map<nat, Place>, id: nat, i: nat, l3: nat, id': nat)
    requires Inv(s, free, owner) && id in s.vms && i < ENTRIES && id' in s.vms
    requires l3 in s.held
    ensures var s' := Promoted(s, id, i, l3);
            && Peek(s'.pool.mem, s.vms[id'].l0) == Peek(s.pool.mem, s.vms[id'].l0)
            && Peek(s'.pool.mem, s.vms[id'].l1) == Peek(s.pool.mem, s.vms[id'].l1)
            && (forall k :: 0 <= k < ENTRIES ==>
                  L2Entry(s', id', k) == if id' == id && k == i then TableDesc(l3) else L2Entry(s, id', k))
            && (forall k, j :: 0 <= k < ENTRIES && 0 <= j < ENTRIES && IsTable(L2Entry(s, id', k)) ==>
                  Peek(s'.pool.mem, PaOf(L2Entry(s, id', k)))[j] == L3Entry(s, id', k, j))
            && Peek(s'.pool.mem, l3) == Peek(s.pool.mem, l3)
  {
    hide IsTable, IsValid, PaOf, TableDesc, PageDesc, FreeIs, VmShape, BootShape;
    assert At(s, free, l3, Held);
    assert At(s, free, s.vms[id].l2, L2(id));
    assert At(s, free, s.vms[id'].l0, L0(id'));
    assert At(s, free, s.vms[id'].l1, L1(id'));
    assert At(s, free, s.vms[id'].l2, L2(id'));
    forall k, j | 0 <= k < ENTRIES && 0 <= j < ENTRIES && IsTable(L2Entry(s, id', k))
      ensures Peek(Promoted(s, id, i, l3).pool.mem, PaOf(L2Entry(s, id', k)))[j] == L3Entry(s, id', k, j)
    {
      assert At(s, free, PaOf(L2Entry(s, id', k)), L3(id', k));
    }
  }

  lemma PromoteShape(s: Sys, free: seq<nat>, owner: map<nat, Place>, id: nat, i: nat, l3: nat, id': nat)
    requires Inv(s, free, owner) && id in s.vms && i < ENTRIES && id' in s.vms
    requires l3 in s.held && l3 in s.pool.mem && s.pool.mem[l3] == ZeroPage
    requires !IsTable(L2Entry(s, id, i))
    ensures VmShape(Promoted(s, id, i, l3), id')
  {
    hide IsTable, IsValid, PaOf, TableDesc, PageDesc, FreeIs;
    var s' := Promoted(s, id, i, l3);
    assert At(s, free, l3, Held);
    assert At(s, free, s.vms[id].l2, L2(id));
    PromotedEntries(s, free, owner, id, i, l3, id');
    TableDescRoundTrip(l3);
    ZeroInvalid();
    assert VmShape(s, id');
    forall k, j | 0 <= k < ENTRIES && 0 <= j < ENTRIES && IsTable(L2Entry(s', id', k))
      ensures var e := L3Entry(s', id', k, j); IsValid(e) ==> e == PageDesc(PaOf(e))
    {
      if id' == id && k == i {
        assert L3Entry(s', id', k, j) == 0;
      } else {
        assert L3Entry(s', id', k, j) == L3Entry(s, id', k, j);
      }
    }
  }

  lemma PromoteKeeps(s: Sys, free: seq<nat>, owner: map<nat, Place>, id: nat, i: nat, l3: nat)
    requires Inv(s, free, owner) && id in s.vms && i < ENTRIES
    requires l3 in s.held && !IsTable(L2Entry(s, id, i))
    requires l3 in s.pool.mem && s.pool.mem[l3] == ZeroPage
    ensures Inv(Promoted(s, id, i, l3), free, owner[l3 := L3(id, i)])
  {
    hide IsTable, IsValid, PaOf, TableDesc, PageDesc, VmShape;
    var s', owner' := Promoted(s, id, i, l3), owner[l3 := L3(id, i)];
    assert At(s, free, l3, Held);
    assert At(s, free, s.vms[id].l2, L2(id));
    assert !At(s, free, s.vms[id].l2, InFree);
    ListMembers(s.pool.mem, s.pool.freelist, free);
    ListFrame(s.pool.mem, s'.pool.mem, s.pool.freelist, free);
    TableDescRoundTrip(l3);
    ZeroInvalid();
    forall q, pl
      ensures At(s', free, q, pl) <==> q in owner' && owner'[q] == pl
    {
      assert At(s, free, q, pl) <==> q in owner && owner[q] == pl;
      if (pl.L3? || pl.Mapped?) && pl.id in s.vms && pl.i < ENTRIES {
        PromotedEntries(s, free, owner, id, i, l3, pl.id);
        if pl.id == id && pl.i == i {
          assert !At(s, free, q, pl);
          assert pl.Mapped? && pl.j < ENTRIES ==> L3Entry(s', id, i, pl.j) == 0;
        }
      }
    }
    forall id' | id' in s'.vms ensures VmShape(s', id') {
      PromoteShape(s, free, owner, id, i, l3, id');
    }
  }

  // ---- a page descriptor is installed in, or removed from, an L3 table ----

  /** State after writing `e` at entry `j` of the L3 table under L2 entry `i`. */
  function WithL3(s: Sys, id: nat, i: nat, j: nat, e: nat): Sys
    requires id in s.vms && i < ENTRIES && j < ENTRIES
  {
    s.(pool := s.pool.(mem := Poke(s.pool.mem, PaOf(L2Entry(s, id, i)), j, e)))
  }

  lemma WithL3Entries(s: Sys, free: seq<nat>, owner: map<nat, Place>, id: nat, i: nat, j: nat, e: nat, id': nat)
    requires Inv(s, free, owner) && id in s.vms && i < ENTRIES && j < ENTRIES && id' in s.vms
    requires IsTable(L2Entry(s, id, i))
    ensures var s' := WithL3(s, id, i, j, e);
            && Peek(s'.pool.mem, s.vms[id'].l0) == Peek(s.pool.mem, s.vms[id'].l0)
            && Peek(s'.pool.mem, s.vms[id'].l1) == Peek(s.pool.mem, s.vms[id'].l1)
            && (forall k :: 0 <= k < ENTRIES ==> L2Entry(s', id', k) == L2Entry(s, id', k))
            && (forall k, m :: 0 <= k < ENTRIES && 0 <= m < ENTRIES && IsTable(L2Entry(s, id', k)) ==>
                  L3Entry(s', id', k, m) == if id' == id && k == i && m == j then e else L3Entry(s, id', k, m))
  {
    hide IsTable, IsValid, PaOf, TableDesc, PageDesc, FreeIs, VmShape, BootShape;
    var s' := WithL3(s, id, i, j, e);
    var l3 := PaOf(L2Entry(s, id, i));
    assert At(s, free, l3, L3(id, i));
    assert At(s, free, s.vms[id'].l0, L0(id'));
    assert At(s, free, s.vms[id'].l1, L1(id'));
    assert At(s, free, s.vms[id'].l2, L2(id'));
    forall k, m | 0 <= k < ENTRIES && 0 <= m < ENTRIES && IsTable(L2Entry(s, id', k))
      ensures L3Entry(s', id', k, m) == if id' == id && k == i && m == j then e else L3Entry(s, id', k, m)
    {
      assert At(s, free, PaOf(L2Entry(s, id', k)), L3(id', k));
    }
  }

  lemma WithL3Keeps(s: Sys, free: seq<nat>, owner: map<nat, Place>, id: nat, i: nat, j: nat, e: nat)
    requires Inv(s, free, owner) && id in s.vms && i < ENTRIES && j < ENTRIES
    requires IsTable(L2Entry(s, id, i))
    requires IsValid(e) ==> e == PageDesc(PaOf(e))
    ensures var s' := WithL3(s, id, i, j, e);
            && s'.pool.mem.Keys == s.pool.mem.Keys
            && FreeIs(s'.pool, free)
            && BootShape(s', owner)
            && (forall id' :: id' in s'.vms ==> VmShape(s', id'))
  {
    hide IsTable, IsValid, PaOf, TableDesc, PageDesc;
    var s' := WithL3(s, id, i, j, e);
    var l3 := PaOf(L2Entry(s, id, i));
    assert At(s, free, l3, L3(id, i));
    assert !At(s, free, l3, InFree);
    ListMembers(s.pool.mem, s.pool.freelist, free);
    ListFrame(s.pool.mem, s'.pool.mem, s.pool.freelist, free);
    forall id' | id' in s'.vms ensures VmShape(s', id') {
      assert VmShape(s, id');
      WithL3Entries(s, free, owner, id, i, j, e, id');
    }
  }

  lemma InstallKeeps(s: Sys, free: seq<nat>, owner: map<nat, Place>, id: nat, i: nat, j: nat, pa: nat)
    requires Inv(s, free, owner) && id in s.vms && i < ENTRIES && j < ENTRIES
    requires IsTable(L2Entry(s, id, i)) && !IsValid(L3Entry(s, id, i, j)) && pa in s.held
    ensures Inv(WithL3(s, id, i, j, PageDesc(pa)).(held := s.held - {pa}), free, owner[pa := Mapped(id, i, j)])
  {
    hide IsTable, IsValid, PaOf, TableDesc, PageDesc, VmShape;
    var t := WithL3(s, id, i, j, PageDesc(pa));
    var s', owner' := t.(held := s.held - {pa}), owner[pa := Mapped(id, i, j)];
    assert At(s, free, pa, Held);
    PageDescRoundTrip(pa);
    WithL3Keeps(s, free, owner, id, i, j, PageDesc(pa));
    forall id' | id' in s'.vms ensures VmShape(s', id') {
      assert VmShape(t, id');
      SameShape(t, s', id');
    }
    forall q, pl
      ensures At(s', free, q, pl) <==> q in owner' && owner'[q] == pl
    {
      assert At(s, free, q, pl) <==> q in owner && owner[q] == pl;
      if (pl.L3? || pl.Mapped?) && pl.id in s.vms && pl.i < ENTRIES {
        WithL3Entries(s, free, owner, id, i, j, PageDesc(pa), pl.id);
        assert L2Entry(s', pl.id, pl.i) == L2Entry(t, pl.id, pl.i);
        if pl.Mapped? && pl.j < ENTRIES {
          assert L3Entry(s', pl.id, pl.i, pl.j) == L3Entry(t, pl.id, pl.i, pl.j);
        }
      }
    }
  }

  lemma SameShape(t: Sys, s: Sys, id: nat)
    requires id in t.vms && VmShape(t, id)
    requires s.pool == t.pool && s.boot == t.boot && id in s.vms && s.vms[id] == t.vms[id]
    ensures VmShape(s, id)
  {
    hide IsTable, IsValid, PaOf, TableDesc, PageDesc;
    assert forall i :: 0 <= i < ENTRIES ==> L2Entry(s, id, i) == L2Entry(t, id, i);
    assert forall i, j :: 0 <= i < ENTRIES && 0 <= j < ENTRIES ==> L3Entry(s, id, i, j) == L3Entry(t, id, i, j);
  }

  lemma RemoveKeeps(s: Sys, free: seq<nat>, owner: map<nat, Place>, id: nat, i: nat, j: nat)
    requires Inv(s, free, owner) && id in s.vms && i < ENTRIES && j < ENTRIES
    requires IsTable(L2Entry(s, id, i)) && IsValid(L3Entry(s, id, i, j))
    ensures var pa := PaOf(L3Entry(s, id, i, j));
            && pa in owner && owner[pa] == Mapped(id, i, j)
            && Inv(WithL3(s, id, i, j, 0).(held := s.held + {pa}), free, owner[pa := Held])
  {
    hide IsTable, IsValid, PaOf, TableDesc, PageDesc, VmShape;
    var pa := PaOf(L3Entry(s, id, i, j));
    var t := WithL3(s, id, i, j, 0);
    var s', owner' := t.(held := s.held + {pa}), owner[pa := Held];
    assert At(s, free, pa, Mapped(id, i, j));
    ZeroInvalid();
    WithL3Keeps(s, free, owner, id, i, j, 0);
    forall id' | id' in s'.vms ensures VmShape(s', id') {
      assert VmShape(t, id');
      SameShape(t, s', id');
    }
    forall q, pl
      ensures At(s', free, q, pl) <==> q in owner' && owner'[q] == pl
    {
      assert At(s, free, q, pl) <==> q in owner && owner[q] == pl;
      if (pl.L3? || pl.Mapped?) && pl.id in s.vms && pl.i < ENTRIES {
        WithL3Entries(s, free, owner, id, i, j, 0, pl.id);
        assert L2Entry(s', pl.id, pl.i) == L2Entry(t, pl.id, pl.i);
        if pl.Mapped? && pl.j < ENTRIES {
          assert L3Entry(s', pl.id, pl.i, pl.j) == L3Entry(t, pl.id, pl.i, pl.j);
        }
      }
    }
  }
}
