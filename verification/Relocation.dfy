/** The dynamic linker's relocation passes over libc and the application, and what a
    successful link leaves in memory. */
module Relocation {
  import opened ByteMemory
  import opened Elf

  /** A slot to fill and its value. */
  datatype Write = Write(slot: nat, value: nat)

  // ---- the passes, reading memory as they change it ----

  /** ld_apply_relative from entry i on. */
  function ApplyRelative(m: Bytes, base: nat, tbl: nat, i: nat, n: nat): Bytes
    decreases n - i
  {
    if i >= n then m
    else if RelType(m, tbl, i) != RELATIVE then ApplyRelative(m, base, tbl, i + 1, n)
    else
      var m' := Store(m, At(base, RelOffset(m, tbl, i)), 8, At(base, RelAddend(m, tbl, i)));
      ApplyRelative(m', base, tbl, i + 1, n)
  }

  /** The client's base and tables and the provider a cross-object pass works with. */
  datatype Pass = Pass(client: nat, strtab: nat, symtab: nat, provider: nat, dyn: Dyn)

  predicate Imports(m: Bytes, tbl: nat, i: nat) {
    RelType(m, tbl, i) == GLOB_DAT || RelType(m, tbl, i) == JUMP_SLOT
  }

  function NameAt(m: Bytes, p: Pass, tbl: nat, i: nat): nat {
    At(p.strtab, SymName(m, p.symtab, RelSym(m, tbl, i)))
  }

  ghost function Target(m: Bytes, p: Pass, tbl: nat, i: nat): nat {
    Resolve(m, p.provider, p.dyn, Str(m, NameAt(m, p, tbl, i)))
  }

  /** ld_apply_xdso from entry i on: it gives up at the first unresolved name. */
  ghost function ApplyXdso(m: Bytes, p: Pass, tbl: nat, i: nat, n: nat): (Bytes, bool)
    decreases n - i
  {
    if i >= n then (m, true)
    else if !Imports(m, tbl, i) then ApplyXdso(m, p, tbl, i + 1, n)
    else
      var v := Target(m, p, tbl, i);
      if v == 0 then (m, false)
      else ApplyXdso(Store(m, At(p.client, RelOffset(m, tbl, i)), 8, v), p, tbl, i + 1, n)
  }

  function PassOf(app: nat, a: Dyn, libc: nat, l: Dyn): Pass {
    Pass(app, At(app, a.strtab), At(app, a.symtab), libc, l)
  }

  function RelativeOf(m: Bytes, base: nat, d: Dyn): Bytes {
    if d.relaSize == 0 then m else ApplyRelative(m, base, At(base, d.rela), 0, Count(d.relaSize))
  }

  /** The cross-object part of ld_main. */
  ghost function Cross(m: Bytes, app: nat, a: Dyn, libc: nat, l: Dyn): (Bytes, bool) {
    if libc == 0 || a.symtab == 0 || a.strtab == 0 then (m, true) else
    var p := PassOf(app, a, libc, l);
    var (m1, ok) := if a.relaSize > 0 then ApplyXdso(m, p, At(app, a.rela), 0, Count(a.relaSize)) else (m, true);
    if !ok then (m1, false)
    else if a.jmprelSize > 0 then ApplyXdso(m1, p, At(app, a.jmprel), 0, Count(a.jmprelSize))
    else (m1, true)
  }

  /** ld_main after the auxiliary vector is read: the memory left and whether the entry
      point is returned. */
  ghost function Link(m: Bytes, app: nat, libc: nat): (Bytes, bool) {
    var l := if libc == 0 then Some(NO_DYN) else Dynamic(m, libc);
    if l.None? then (m, false) else
    var m1 := if libc == 0 then m else RelativeOf(m, libc, l.value);
    if app == 0 then (m1, true) else
    var a := Dynamic(m1, app);
    if a.None? then (m1, true) else Cross(RelativeOf(m1, app, a.value), app, a.value, libc, l.value)
  }

  // ---- the same, planned from the initial memory ----

  function RelativePlan(m: Bytes, base: nat, tbl: nat, i: nat, n: nat): seq<Write>
    decreases n - i
  {
    if i >= n then []
    else if RelType(m, tbl, i) != RELATIVE then RelativePlan(m, base, tbl, i + 1, n)
    else [Write(At(base, RelOffset(m, tbl, i)), At(base, RelAddend(m, tbl, i)))] + RelativePlan(m, base, tbl, i + 1, n)
  }

  ghost function XdsoPlan(m: Bytes, p: Pass, tbl: nat, i: nat, n: nat): (seq<Write>, bool)
    decreases n - i
  {
    if i >= n then ([], true)
    else if !Imports(m, tbl, i) then XdsoPlan(m, p, tbl, i + 1, n)
    else if Target(m, p, tbl, i) == 0 then ([], false)
    else
      var rest := XdsoPlan(m, p, tbl, i + 1, n);
      ([Write(At(p.client, RelOffset(m, tbl, i)), Target(m, p, tbl, i))] + rest.0, rest.1)
  }

  function Apply(m: Bytes, ws: seq<Write>): Bytes
    decreases |ws|
  {
    if ws == [] then m else Apply(Store(m, ws[0].slot, 8, ws[0].value), ws[1..])
  }

  ghost function SlotBytes(w: Write): set<nat> {
    var a := w.slot;
    {a, a + 1, a + 2, a + 3, a + 4, a + 5, a + 6, a + 7}
  }

  /** The bytes of the slots. */
  ghost function Slots(ws: seq<Write>): set<nat> {
    if ws == [] then {} else SlotBytes(ws[0]) + Slots(ws[1..])
  }

  ghost predicate Inside(ws: seq<Write>, s: set<nat>) {
    forall k :: 0 <= k < |ws| ==> SlotIn(ws[k], s)
  }

  ghost predicate SlotIn(w: Write, s: set<nat>) {
    forall x :: w.slot <= x < w.slot + 8 ==> x in s
  }

  lemma StoreStable(m: Bytes, m': Bytes, s: set<nat>, w: Write)
    requires Stable(m, m', s) && SlotIn(w, s)
    ensures Stable(m, Store(m', w.slot, 8, w.value), s)
  {
    forall x: nat | x !in s ensures Get(Store(m', w.slot, 8, w.value), x) == Get(m, x) {
      StoreFrame(m', w.slot, 8, w.value, x);
    }
  }

  lemma {:induction false} ApplyStable(m: Bytes, m': Bytes, s: set<nat>, ws: seq<Write>)
    requires Stable(m, m', s) && Inside(ws, s)
    ensures Stable(m, Apply(m', ws), s)
    decreases |ws|
  {
    hide Stable, SlotIn, Store;
    if ws != [] {
      StoreStable(m, m', s, ws[0]);
      ApplyStable(m, Store(m', ws[0].slot, 8, ws[0].value), s, ws[1..]);
    }
  }

  lemma {:induction false} ApplyConcat(m: Bytes, a: seq<Write>, b: seq<Write>)
    ensures Apply(m, a + b) == Apply(Apply(m, a), b)
    decreases |a|
  {
    if a == [] {
      assert a + b == b;
    } else {
      assert (a + b)[1..] == a[1..] + b;
      ApplyConcat(Store(m, a[0].slot, 8, a[0].value), a[1..], b);
    }
  }

  // ---- the tables are outside the slots ----

  ghost predicate RelClear(tbl: nat, i: nat, s: set<nat>) {
    Clear(At(tbl, 24 * i), 8, s) && Clear(At(tbl, 24 * i + 8), 8, s) && Clear(At(tbl, 24 * i + 16), 8, s)
  }

  ghost predicate TableClear(tbl: nat, n: nat, s: set<nat>) {
    forall i :: 0 <= i < n ==> RelClear(tbl, i, s)
  }

  ghost predicate SymClear(tab: nat, i: nat, s: set<nat>) {
    Clear(At(tab, 24 * i), 4, s) && Clear(At(tab, 24 * i + 6), 2, s) && Clear(At(tab, 24 * i + 8), 8, s)
  }

  /** The provider's symbol count, symbols and names. */
  ghost predicate ProviderClear(m: Bytes, base: nat, d: Dyn, s: set<nat>) {
    && (d.hash != 0 ==> Clear(At(base, d.hash + 4), 4, s))
    && forall i :: 0 <= i < Nsyms(m, base, d) ==> SymbolClear(m, base, d, i, s)
  }

  ghost predicate SymbolClear(m: Bytes, base: nat, d: Dyn, i: nat, s: set<nat>) {
    && SymClear(At(base, d.symtab), i, s)
    && (Defined(m, base, d, i) ==> StrClear(m, At(At(base, d.strtab), SymName(m, At(base, d.symtab), i)), s))
  }

  /** The client's symbol and name of import entry i. */
  ghost predicate ImportClear(m: Bytes, p: Pass, tbl: nat, i: nat, s: set<nat>) {
    SymClear(p.symtab, RelSym(m, tbl, i), s) && StrClear(m, NameAt(m, p, tbl, i), s)
  }

  ghost predicate PassClear(m: Bytes, p: Pass, tbl: nat, n: nat, s: set<nat>) {
    && TableClear(tbl, n, s) && ProviderClear(m, p.provider, p.dyn, s)
    && forall i :: 0 <= i < n && Imports(m, tbl, i) ==> ImportClear(m, p, tbl, i, s)
  }

  lemma EntryStable(m: Bytes, m': Bytes, s: set<nat>, tbl: nat, i: nat)
    requires Stable(m, m', s) && RelClear(tbl, i, s)
    ensures RelOffset(m', tbl, i) == RelOffset(m, tbl, i) && RelType(m', tbl, i) == RelType(m, tbl, i)
    ensures RelSym(m', tbl, i) == RelSym(m, tbl, i) && RelAddend(m', tbl, i) == RelAddend(m, tbl, i)
  {
    hide Stable, Clear, Load;
    LoadStable(m, m', s, At(tbl, 24 * i), 8);
    LoadStable(m, m', s, At(tbl, 24 * i + 8), 8);
    LoadStable(m, m', s, At(tbl, 24 * i + 16), 8);
  }

  lemma SymStable(m: Bytes, m': Bytes, s: set<nat>, tab: nat, i: nat)
    requires Stable(m, m', s) && SymClear(tab, i, s)
    ensures SymName(m', tab, i) == SymName(m, tab, i) && SymSection(m', tab, i) == SymSection(m, tab, i)
    ensures SymValue(m', tab, i) == SymValue(m, tab, i)
  {
    hide Stable, Clear, Load;
    LoadStable(m, m', s, At(tab, 24 * i), 4);
    LoadStable(m, m', s, At(tab, 24 * i + 6), 2);
    LoadStable(m, m', s, At(tab, 24 * i + 8), 8);
  }

  lemma {:induction false} LookupStable(m: Bytes, m': Bytes, s: set<nat>, base: nat, d: Dyn, name: seq<Byte>, i: nat,
      n: nat)
    requires Stable(m, m', s) && forall k :: i <= k < n ==> SymbolClear(m, base, d, k, s)
    ensures Lookup(m', base, d, name, i, n) == Lookup(m, base, d, name, i, n)
    decreases n - i
  {
    hide Stable, SymClear, StrClear, At, SymName, SymSection, SymValue, Str;
    if i < n {
      var tab := At(base, d.symtab);
      assert SymbolClear(m, base, d, i, s);
      SymStable(m, m', s, tab, i);
      if Defined(m, base, d, i) {
        StrStable(m, m', s, At(At(base, d.strtab), SymName(m, tab, i)));
      }
      LookupStable(m, m', s, base, d, name, i + 1, n);
    }
  }

  lemma TargetStable(m: Bytes, m': Bytes, s: set<nat>, p: Pass, tbl: nat, i: nat)
    requires Stable(m, m', s) && RelClear(tbl, i, s) && ImportClear(m, p, tbl, i, s) &&
               ProviderClear(m, p.provider, p.dyn, s)
    ensures Target(m', p, tbl, i) == Target(m, p, tbl, i)
  {
    hide Stable, SymClear, StrClear, RelClear, SymbolClear, Clear, At, Str, Lookup, RelSym, SymName, Load;
    EntryStable(m, m', s, tbl, i);
    SymStable(m, m', s, p.symtab, RelSym(m, tbl, i));
    StrStable(m, m', s, NameAt(m, p, tbl, i));
    if p.dyn.hash != 0 {
      LoadStable(m, m', s, At(p.provider, p.dyn.hash + 4), 4);
    }
    LookupStable(m, m', s, p.provider, p.dyn, Str(m, NameAt(m, p, tbl, i)), 0, Nsyms(m, p.provider, p.dyn));
  }

  // ---- the passes carry out the plan ----

  lemma {:induction false} RelativeReplay(m: Bytes, m': Bytes, s: set<nat>, base: nat, tbl: nat, i: nat, n: nat)
    requires Stable(m, m', s) && TableClear(tbl, n, s) && Inside(RelativePlan(m, base, tbl, i, n), s)
    ensures ApplyRelative(m', base, tbl, i, n) == Apply(m', RelativePlan(m, base, tbl, i, n))
    decreases n - i
  {
    hide Stable, SlotIn, RelClear, Store, At, RelType, RelOffset, RelAddend;
    if i < n {
      assert RelClear(tbl, i, s);
      EntryStable(m, m', s, tbl, i);
      var plan := RelativePlan(m, base, tbl, i, n);
      if RelType(m, tbl, i) == RELATIVE {
        var w := Write(At(base, RelOffset(m, tbl, i)), At(base, RelAddend(m, tbl, i)));
        assert plan[0] == w && plan[1..] == RelativePlan(m, base, tbl, i + 1, n);
        InsideTail(plan, s);
        StoreStable(m, m', s, w);
        RelativeReplay(m, Store(m', w.slot, 8, w.value), s, base, tbl, i + 1, n);
      } else {
        RelativeReplay(m, m', s, base, tbl, i + 1, n);
      }
    }
  }

  lemma InsideTail(ws: seq<Write>, s: set<nat>)
    requires ws != [] && Inside(ws, s)
    ensures SlotIn(ws[0], s) && Inside(ws[1..], s)
  {
    hide SlotIn;
  }

  lemma {:induction false} XdsoReplay(m: Bytes, m': Bytes, s: set<nat>, p: Pass, tbl: nat, i: nat, n: nat)
    requires Stable(m, m', s) && PassClear(m, p, tbl, n, s) && Inside(XdsoPlan(m, p, tbl, i, n).0, s)
    ensures ApplyXdso(m', p, tbl, i, n) == (Apply(m', XdsoPlan(m, p, tbl, i, n).0), XdsoPlan(m, p, tbl, i, n).1)
    decreases n - i
  {
    hide Stable, SlotIn, RelClear, Store, At, RelType, RelOffset, Target, ImportClear, ProviderClear;
    if i < n {
      assert RelClear(tbl, i, s);
      EntryStable(m, m', s, tbl, i);
      var plan := XdsoPlan(m, p, tbl, i, n);
      if !Imports(m, tbl, i) {
        XdsoReplay(m, m', s, p, tbl, i + 1, n);
      } else {
        assert ImportClear(m, p, tbl, i, s);
        TargetStable(m, m', s, p, tbl, i);
        if Target(m, p, tbl, i) != 0 {
          var w := Write(At(p.client, RelOffset(m, tbl, i)), Target(m, p, tbl, i));
          assert plan.0[0] == w && plan.0[1..] == XdsoPlan(m, p, tbl, i + 1, n).0;
          InsideTail(plan.0, s);
          StoreStable(m, m', s, w);
          XdsoReplay(m, Store(m', w.slot, 8, w.value), s, p, tbl, i + 1, n);
        }
      }
    }
  }

  lemma {:induction false} InsideSlots(ws: seq<Write>, s: set<nat>)
    requires Slots(ws) <= s
    ensures Inside(ws, s)
    decreases |ws|
  {
    if ws != [] {
      InsideSlots(ws[1..], s);
      assert SlotBytes(ws[0]) <= s;
      assert SlotIn(ws[0], s);
      forall k | 0 <= k < |ws| ensures SlotIn(ws[k], s) {
        if k > 0 { assert ws[k] == ws[1..][k - 1]; }
      }
    }
  }

  lemma InsideParts(a: seq<Write>, b: seq<Write>, s: set<nat>)
    requires Inside(a + b, s)
    ensures Inside(a, s) && Inside(b, s)
  {
    hide SlotIn;
    forall k | 0 <= k < |a| ensures SlotIn(a[k], s) { assert (a + b)[k] == a[k]; }
    forall k | 0 <= k < |b| ensures SlotIn(b[k], s) { assert (a + b)[|a| + k] == b[k]; }
  }

  function RelativePlanOf(m: Bytes, base: nat, d: Dyn): seq<Write> {
    if d.relaSize == 0 then [] else RelativePlan(m, base, At(base, d.rela), 0, Count(d.relaSize))
  }

  ghost function XdsoPlanOf(m: Bytes, p: Pass, off: nat, size: nat): (seq<Write>, bool) {
    if size == 0 then ([], true) else XdsoPlan(m, p, At(p.client, off), 0, Count(size))
  }

  ghost function CrossPlan(m: Bytes, app: nat, a: Dyn, libc: nat, l: Dyn): (seq<Write>, bool) {
    if libc == 0 || a.symtab == 0 || a.strtab == 0 then ([], true) else
    var p := PassOf(app, a, libc, l);
    var x := XdsoPlanOf(m, p, a.rela, a.relaSize);
    if !x.1 then x else
    var y := XdsoPlanOf(m, p, a.jmprel, a.jmprelSize);
    (x.0 + y.0, y.1)
  }

  ghost function LibcDyn(m: Bytes, libc: nat): Option<Dyn> {
    if libc == 0 then Some(NO_DYN) else Dynamic(m, libc)
  }

  /** Everything a link writes, read off the initial memory, and whether it succeeds. */
  ghost function Plan(m: Bytes, app: nat, libc: nat): (seq<Write>, bool) {
    var l := LibcDyn(m, libc);
    if l.None? then ([], false) else
    var first := RelativePlanOf(m, libc, l.value);
    var a := Dynamic(m, app);
    if app == 0 || a.None? then (first, true) else
    var x := CrossPlan(m, app, a.value, libc, l.value);
    (first + RelativePlanOf(m, app, a.value) + x.0, x.1)
  }

  ghost predicate CrossPlaced(m: Bytes, app: nat, a: Dyn, libc: nat, l: Dyn, s: set<nat>) {
    libc != 0 && a.symtab != 0 && a.strtab != 0 ==>
      var p := PassOf(app, a, libc, l);
      PassClear(m, p, At(app, a.rela), Count(a.relaSize), s) &&
          PassClear(m, p, At(app, a.jmprel), Count(a.jmprelSize), s)
  }

  /** No byte read after the first write is one that is written. */
  ghost predicate Placed(m: Bytes, app: nat, libc: nat, s: set<nat>) {
    var l := LibcDyn(m, libc);
    l.Some? ==>
      && TableClear(At(libc, l.value.rela), Count(l.value.relaSize), s)
      && (app != 0 ==>
            && HeadersClear(m, app, s)
            && var a := Dynamic(m, app);
               a.Some? ==> TableClear(At(app, a.value.rela), Count(a.value.relaSize), s) &&
                           CrossPlaced(m, app, a.value, libc, l.value, s))
  }

  lemma RelativeOfReplay(m: Bytes, m': Bytes, s: set<nat>, base: nat, d: Dyn)
    requires Stable(m, m', s) && TableClear(At(base, d.rela), Count(d.relaSize), s) &&
               Inside(RelativePlanOf(m, base, d), s)
    ensures RelativeOf(m', base, d) == Apply(m', RelativePlanOf(m, base, d))
    ensures Stable(m, RelativeOf(m', base, d), s)
  {
    hide Stable, Inside, TableClear, ApplyRelative, RelativePlan, At, Count;
    if d.relaSize != 0 {
      RelativeReplay(m, m', s, base, At(base, d.rela), 0, Count(d.relaSize));
    }
    ApplyStable(m, m', s, RelativePlanOf(m, base, d));
  }

  lemma XdsoOfReplay(m: Bytes, m': Bytes, s: set<nat>, p: Pass, off: nat, size: nat)
    requires Stable(m, m', s) && PassClear(m, p, At(p.client, off), Count(size), s) &&
               Inside(XdsoPlanOf(m, p, off, size).0, s)
    ensures (if size > 0 then ApplyXdso(m', p, At(p.client, off), 0, Count(size)) else (m', true)) ==
            (Apply(m', XdsoPlanOf(m, p, off, size).0), XdsoPlanOf(m, p, off, size).1)
    ensures Stable(m, Apply(m', XdsoPlanOf(m, p, off, size).0), s)
  {
    hide Stable, Inside, PassClear, ApplyXdso, XdsoPlan, At, Count;
    if size > 0 {
      XdsoReplay(m, m', s, p, At(p.client, off), 0, Count(size));
    }
    ApplyStable(m, m', s, XdsoPlanOf(m, p, off, size).0);
  }

  lemma CrossReplay(m: Bytes, m': Bytes, s: set<nat>, app: nat, a: Dyn, libc: nat, l: Dyn)
    requires Stable(m, m', s) && CrossPlaced(m, app, a, libc, l, s) && Inside(CrossPlan(m, app, a, libc, l).0, s)
    ensures Cross(m', app, a, libc, l) == (Apply(m', CrossPlan(m, app, a, libc, l).0), CrossPlan(m, app, a, libc, l).1)
  {
    hide Stable, Inside, PassClear, ApplyXdso, XdsoPlanOf, At, Count;
    if libc != 0 && a.symtab != 0 && a.strtab != 0 {
      var p := PassOf(app, a, libc, l);
      var x, y := XdsoPlanOf(m, p, a.rela, a.relaSize), XdsoPlanOf(m, p, a.jmprel, a.jmprelSize);
      if x.1 {
        InsideParts(x.0, y.0, s);
        ApplyConcat(m', x.0, y.0);
      }
      XdsoOfReplay(m, m', s, p, a.rela, a.relaSize);
      if x.1 {
        XdsoOfReplay(m, Apply(m', x.0), s, p, a.jmprel, a.jmprelSize);
      }
    }
  }

  /** The linker, reading tables from memory it is changing, writes exactly the plan. */
  lemma LinkFollowsPlan(m: Bytes, app: nat, libc: nat)
    requires Placed(m, app, libc, Slots(Plan(m, app, libc).0))
    ensures Link(m, app, libc) == (Apply(m, Plan(m, app, libc).0), Plan(m, app, libc).1)
  {
    hide Stable, Inside, TableClear, HeadersClear, CrossPlaced, Slots, At, Count, Dynamic, RelativeOf,
        RelativePlanOf, Cross, CrossPlan;
    var ws, s := Plan(m, app, libc).0, Slots(Plan(m, app, libc).0);
    var l := LibcDyn(m, libc);
    InsideSlots(ws, s);
    StableSelf(m, s);
    if l.Some? {
      var first := RelativePlanOf(m, libc, l.value);
      var a := Dynamic(m, app);
      if app != 0 && a.Some? {
        var second, x := RelativePlanOf(m, app, a.value), CrossPlan(m, app, a.value, libc, l.value).0;
        InsideParts(first + second, x, s);
        InsideParts(first, second, s);
        ApplyConcat(m, first + second, x);
        ApplyConcat(m, first, second);
      }
      if libc == 0 { NoRelative(m); }
      RelativeOfReplay(m, m, s, libc, l.value);
      var m1 := Apply(m, first);
      if app != 0 {
        DynamicStable(m, m1, s, app);
        if a.Some? {
          RelativeOfReplay(m, m1, s, app, a.value);
          CrossReplay(m, RelativeOf(m1, app, a.value), s, app, a.value, libc, l.value);
        }
      }
    }
  }

  lemma StableSelf(m: Bytes, s: set<nat>)
    ensures Stable(m, m, s)
  {
  }

  lemma NoRelative(m: Bytes)
    ensures RelativePlanOf(m, 0, NO_DYN) == [] && RelativeOf(m, 0, NO_DYN) == m
  {
  }

  // ---- exactness ----

  ghost predicate Apart(ws: seq<Write>) {
    forall i, j :: 0 <= i < j < |ws| ==> ws[i].slot + 8 <= ws[j].slot || ws[j].slot + 8 <= ws[i].slot
  }

  ghost predicate Fits(ws: seq<Write>) {
    forall i :: 0 <= i < |ws| ==> ws[i].value < U64
  }

  lemma {:induction false} ApplyLeaves(m: Bytes, ws: seq<Write>, a: nat)
    requires forall i :: 0 <= i < |ws| ==> ws[i].slot + 8 <= a || a + 8 <= ws[i].slot
    ensures Load(Apply(m, ws), a, 8) == Load(m, a, 8)
    decreases |ws|
  {
    hide Load, Store;
    if ws != [] {
      LoadAfterStore(m, ws[0].slot, 8, ws[0].value, a, 8);
      ApplyLeaves(Store(m, ws[0].slot, 8, ws[0].value), ws[1..], a);
    }
  }

  /** Disjoint slots end up holding their values. */
  lemma {:induction false} ApplyExact(m: Bytes, ws: seq<Write>, k: nat)
    requires Apart(ws) && Fits(ws) && k < |ws|
    ensures Load(Apply(m, ws), ws[k].slot, 8) == ws[k].value
    decreases |ws|
  {
    hide Load, Store;
    var m1 := Store(m, ws[0].slot, 8, ws[0].value);
    if k == 0 {
      Pow256Values();
      LoadStored(m, ws[0].slot, 8, ws[0].value);
      ApplyLeaves(m1, ws[1..], ws[0].slot);
    } else {
      assert ws[k] == ws[1..][k - 1];
      ApplyExact(m1, ws[1..], k - 1);
    }
  }

  lemma {:induction false} RelativeFits(m: Bytes, base: nat, tbl: nat, i: nat, n: nat)
    ensures Fits(RelativePlan(m, base, tbl, i, n))
    ensures forall k :: i <= k < n && RelType(m, tbl, k) == RELATIVE ==>
              Write(At(base, RelOffset(m, tbl, k)), At(base, RelAddend(m, tbl, k))) in RelativePlan(m, base, tbl, i, n)
    decreases n - i
  {
    hide RelType, RelOffset, RelAddend;
    if i < n { RelativeFits(m, base, tbl, i + 1, n); }
  }

  lemma {:induction false} XdsoFits(m: Bytes, p: Pass, tbl: nat, i: nat, n: nat)
    ensures Fits(XdsoPlan(m, p, tbl, i, n).0)
    ensures XdsoPlan(m, p, tbl, i, n).1 ==> forall k :: i <= k < n && Imports(m, tbl, k) ==>
              Target(m, p, tbl, k) != 0 && Write(At(p.client, RelOffset(m, tbl, k)),
                  Target(m, p, tbl, k)) in XdsoPlan(m, p, tbl, i, n).0
    decreases n - i
  {
    hide RelType, RelOffset, Target, Imports;
    if i < n {
      XdsoFits(m, p, tbl, i + 1, n);
      TargetFits(m, p, tbl, i);
    }
  }

  lemma TargetFits(m: Bytes, p: Pass, tbl: nat, i: nat)
    ensures Target(m, p, tbl, i) < U64
  {
    var k := LookupFirst(m, p.provider, p.dyn, Str(m, NameAt(m, p, tbl, i)), 0, Nsyms(m, p.provider, p.dyn));
  }

  /** Every RELATIVE slot of the table holds base plus addend. */
  ghost predicate Relocated(m: Bytes, m': Bytes, base: nat, tbl: nat, n: nat) {
    forall k :: 0 <= k < n && RelType(m, tbl, k) == RELATIVE ==>
      Load(m', At(base, RelOffset(m, tbl, k)), 8) == At(base, RelAddend(m, tbl, k))
  }

  /** Every import slot of the table holds the resolved address of its name. */
  ghost predicate Bound(m: Bytes, m': Bytes, p: Pass, tbl: nat, n: nat) {
    forall k :: 0 <= k < n && Imports(m, tbl, k) ==>
      Target(m, p, tbl, k) != 0 && Load(m', At(p.client, RelOffset(m, tbl, k)), 8) == Target(m, p, tbl, k)
  }

  /** All writes of a part of the plan are carried out. */
  ghost predicate Done(m': Bytes, ws: seq<Write>) {
    forall w :: w in ws ==> Load(m', w.slot, 8) == w.value
  }

  lemma PlanDone(m: Bytes, ws: seq<Write>)
    requires Apart(ws) && Fits(ws)
    ensures Done(Apply(m, ws), ws)
  {
    hide Apply, Load;
    forall w | w in ws ensures Load(Apply(m, ws), w.slot, 8) == w.value {
      var k: nat :| k < |ws| && ws[k] == w;
      ApplyExact(m, ws, k);
    }
  }

  lemma RelativeDone(m: Bytes, m': Bytes, base: nat, d: Dyn)
    requires Done(m', RelativePlanOf(m, base, d)) && d.relaSize != 0
    ensures Relocated(m, m', base, At(base, d.rela), Count(d.relaSize))
  {
    hide RelativePlan, Load, At, RelType, RelOffset, RelAddend;
    RelativeFits(m, base, At(base, d.rela), 0, Count(d.relaSize));
  }

  lemma XdsoDone(m: Bytes, m': Bytes, p: Pass, off: nat, size: nat)
    requires Done(m', XdsoPlanOf(m, p, off, size).0) && XdsoPlanOf(m, p, off, size).1 && size != 0
    ensures Bound(m, m', p, At(p.client, off), Count(size))
  {
    hide XdsoPlan, Load, At, Imports, RelOffset, Target;
    XdsoFits(m, p, At(p.client, off), 0, Count(size));
  }

  lemma RelativeOfFits(m: Bytes, base: nat, d: Dyn)
    ensures Fits(RelativePlanOf(m, base, d))
  {
    if d.relaSize != 0 { RelativeFits(m, base, At(base, d.rela), 0, Count(d.relaSize)); }
  }

  lemma XdsoOfFits(m: Bytes, p: Pass, off: nat, size: nat)
    ensures Fits(XdsoPlanOf(m, p, off, size).0)
  {
    if size != 0 { XdsoFits(m, p, At(p.client, off), 0, Count(size)); }
  }

  lemma PlanFits(m: Bytes, app: nat, libc: nat)
    ensures Fits(Plan(m, app, libc).0)
  {
    hide RelativePlanOf, XdsoPlanOf, Dynamic;
    var l, a := LibcDyn(m, libc), Dynamic(m, app);
    if l.Some? {
      RelativeOfFits(m, libc, l.value);
      if a.Some? {
        RelativeOfFits(m, app, a.value);
        var p := PassOf(app, a.value, libc, l.value);
        XdsoOfFits(m, p, a.value.rela, a.value.relaSize);
        XdsoOfFits(m, p, a.value.jmprel, a.value.jmprelSize);
      }
    }
  }

  /** After a successful link, for all load bases: every RELATIVE slot of libc and of the
      application is its object's base plus the addend, every import slot of both tables is
      the address of the first libc symbol that provides its name, and every byte outside
      those slots is as it was. */
  lemma LinkExact(m: Bytes, app: nat, libc: nat)
    requires Plan(m, app, libc).1 && Apart(Plan(m, app, libc).0) && Placed(m, app, libc, Slots(Plan(m, app, libc).0))
    ensures Link(m, app, libc).1
    ensures var m', l := Link(m, app, libc).0, LibcDyn(m, libc);
            && Stable(m, m', Slots(Plan(m, app, libc).0))
            && l.Some? && (l.value.relaSize != 0 ==> Relocated(m, m', libc, At(libc, l.value.rela),
                Count(l.value.relaSize)))
            && (app != 0 && Dynamic(m, app).Some? ==>
                  var a := Dynamic(m, app).value;
                  && (a.relaSize != 0 ==> Relocated(m, m', app, At(app, a.rela), Count(a.relaSize)))
                  && (libc != 0 && a.symtab != 0 && a.strtab != 0 ==>
                        var p := PassOf(app, a, libc, l.value);
                        && (a.relaSize != 0 ==> Bound(m, m', p, At(app, a.rela), Count(a.relaSize)))
                        && (a.jmprelSize != 0 ==> Bound(m, m', p, At(app, a.jmprel), Count(a.jmprelSize)))))
  {
    hide Dynamic, RelativePlanOf, XdsoPlanOf, Relocated, Bound, Placed, Link, Slots, At, Count, Apart, Fits, Stable;
    var ws := Plan(m, app, libc).0;
    LinkFollowsPlan(m, app, libc);
    PlanFits(m, app, libc);
    PlanDone(m, ws);
    StableSelf(m, Slots(ws));
    InsideSlots(ws, Slots(ws));
    ApplyStable(m, m, Slots(ws), ws);
    var m', l := Apply(m, ws), LibcDyn(m, libc).value;
    if l.relaSize != 0 {
      RelativeDone(m, m', libc, l);
    }
    if app != 0 && Dynamic(m, app).Some? {
      var a := Dynamic(m, app).value;
      if a.relaSize != 0 {
        RelativeDone(m, m', app, a);
      }
      if libc != 0 && a.symtab != 0 && a.strtab != 0 {
        var p := PassOf(app, a, libc, l);
        if a.relaSize != 0 { XdsoDone(m, m', p, a.rela, a.relaSize); }
        if a.jmprelSize != 0 { XdsoDone(m, m', p, a.jmprel, a.jmprelSize); }
      }
    }
  }

  // ---- nothing else is written ----

  lemma {:induction false} SlotsMember(ws: seq<Write>, x: nat) returns (w: Write)
    requires x in Slots(ws)
    ensures w in ws && w.slot <= x < w.slot + 8
    decreases |ws|
  {
    if x in SlotBytes(ws[0]) { w := ws[0]; } else { w := SlotsMember(ws[1..], x); }
  }

  lemma {:induction false} RelativeOnly(m: Bytes, base: nat, tbl: nat, i: nat, n: nat, w: Write) returns (k: nat)
    requires w in RelativePlan(m, base, tbl, i, n)
    ensures i <= k < n && RelType(m, tbl, k) == RELATIVE && w.slot == At(base, RelOffset(m, tbl, k))
    decreases n - i
  {
    hide RelType, RelOffset, RelAddend, At;
    if w in RelativePlan(m, base, tbl, i + 1, n) {
      k := RelativeOnly(m, base, tbl, i + 1, n, w);
    } else {
      k := i;
    }
  }

  lemma {:induction false} XdsoOnly(m: Bytes, p: Pass, tbl: nat, i: nat, n: nat, w: Write) returns (k: nat)
    requires w in XdsoPlan(m, p, tbl, i, n).0
    ensures i <= k < n && Imports(m, tbl, k) && w.slot == At(p.client, RelOffset(m, tbl, k))
    decreases n - i
  {
    hide Imports, Target, RelOffset, At;
    if w in XdsoPlan(m, p, tbl, i + 1, n).0 {
      k := XdsoOnly(m, p, tbl, i + 1, n, w);
    } else {
      k := i;
    }
  }

  // ---- when a link succeeds ----

  /** Every import of the table names something libc provides. */
  ghost predicate AllProvided(m: Bytes, p: Pass, tbl: nat, n: nat) {
    forall k :: 0 <= k < n && Imports(m, tbl, k) ==> Target(m, p, tbl, k) != 0
  }

  lemma {:induction false} XdsoIff(m: Bytes, p: Pass, tbl: nat, i: nat, n: nat)
    ensures XdsoPlan(m, p, tbl, i, n).1 <==> forall k :: i <= k < n && Imports(m, tbl, k) ==> Target(m, p, tbl, k) != 0
    decreases n - i
  {
    hide Imports, Target, RelOffset;
    if i < n { XdsoIff(m, p, tbl, i + 1, n); }
  }

  /** A link succeeds exactly when libc, if loaded, has a dynamic section and, where the
      application is bound against it, every import of both tables resolves. */
  lemma SuccessIff(m: Bytes, app: nat, libc: nat)
    requires Placed(m, app, libc, Slots(Plan(m, app, libc).0))
    ensures Link(m, app, libc).1 <==>
              && (libc != 0 ==> Dynamic(m, libc).Some?)
              && (app != 0 && libc != 0 && Dynamic(m, app).Some? ==>
                    var a, p := Dynamic(m, app).value, PassOf(app, Dynamic(m, app).value, libc, Dynamic(m, libc).value);
                    a.symtab != 0 && a.strtab != 0 ==>
                      && AllProvided(m, p, At(app, a.rela), Count(a.relaSize))
                      && AllProvided(m, p, At(app, a.jmprel), Count(a.jmprelSize)))
  {
    hide Dynamic, Placed, Slots, Link, XdsoPlan, At, Imports, Target, RelativePlanOf;
    LinkFollowsPlan(m, app, libc);
    if app != 0 && libc != 0 && Dynamic(m, libc).Some? && Dynamic(m, app).Some? {
      var a := Dynamic(m, app).value;
      var p := PassOf(app, a, libc, Dynamic(m, libc).value);
      XdsoIff(m, p, At(app, a.rela), 0, Count(a.relaSize));
      XdsoIff(m, p, At(app, a.jmprel), 0, Count(a.jmprelSize));
    }
  }
}
