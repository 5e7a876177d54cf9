/** ld-kappara in place: the linker's functions over mutable memory. */
module Linker {
  import opened ByteMemory
  import opened Elf
  import opened Relocation

  class DynamicLinker {
    var mem: Bytes

    /** ld_walk_dynamic. */
    method WalkDynamic(base: nat) returns (r: Option<Dyn>)
      ensures r == Dynamic(mem, base)
    {
      hide Load;
      var phdrs, phnum := Phdrs(mem, base), Phnum(mem, base);
      var dyn, size := 0, 0;
      var i := 0;
      while i < phnum
        invariant i <= phnum && dyn == 0 == size
        invariant FindDynamic(mem, base, phdrs, i, phnum) == FindDynamic(mem, base, phdrs, 0, phnum)
      {
        if Load(mem, At(phdrs, 56 * i), 4) == PT_DYNAMIC {
          dyn := At(base, Load(mem, At(phdrs, 56 * i + 16), 8));
          size := Load(mem, At(phdrs, 56 * i + 32), 8);
          break;
        }
        i := i + 1;
      }
      if dyn == 0 {
        return None;
      }
      var d := ReadEntries(dyn, size / 16 % U32);
      return Some(d);
    }

    method ReadEntries(dyn: nat, n: nat) returns (d: Dyn)
      ensures d == ReadDyn(mem, dyn, 0, n, NO_DYN)
    {
      hide Load, Note;
      d := NO_DYN;
      var i := 0;
      while i < n
        invariant i <= n && ReadDyn(mem, dyn, i, n, d) == ReadDyn(mem, dyn, 0, n, NO_DYN)
      {
        var tag := Load(mem, At(dyn, 16 * i), 8);
        if tag == 0 {
          return;
        }
        d := Note(d, tag, Load(mem, At(dyn, 16 * i + 8), 8));
        i := i + 1;
      }
    }

    /** ld_apply_relative. */
    method ApplyRelatives(base: nat, d: Dyn)
      modifies this
      ensures mem == RelativeOf(old(mem), base, d)
    {
      hide Load, Store, RelType, RelOffset, RelAddend;
      if d.relaSize == 0 {
        return;
      }
      var tbl, n := At(base, d.rela), Count(d.relaSize);
      var i := 0;
      while i < n
        invariant i <= n && ApplyRelative(mem, base, tbl, i, n) == ApplyRelative(old(mem), base, tbl, 0, n)
      {
        if RelType(mem, tbl, i) == RELATIVE {
          mem := Store(mem, At(base, RelOffset(mem, tbl, i)), 8, At(base, RelAddend(mem, tbl, i)));
        }
        i := i + 1;
      }
    }

    /** ld_strcmp: zero exactly for equal strings. */
    method Strcmp(a: nat, b: nat) returns (r: int)
      ensures r == 0 <==> Str(mem, a) == Str(mem, b)
    {
      var p, q := a, b;
      ghost var same := [];
      while Get(mem, p) != 0 && Get(mem, p) == Get(mem, q)
        invariant Str(mem, a) == same + Str(mem, p) && Str(mem, b) == same + Str(mem, q)
        decreases Above(mem, p)
      {
        AboveShrinks(mem, p);
        same := same + [Get(mem, p)];
        p, q := p + 1, q + 1;
      }
      StrHead(mem, p);
      StrHead(mem, q);
      assert Str(mem, p) == Str(mem, a)[|same|..] && Str(mem, q) == Str(mem, b)[|same|..];
      r := Get(mem, p) as int - Get(mem, q) as int;
    }

    /** ld_resolve, with the search bound of ld_nsyms. */
    method ResolveName(base: nat, d: Dyn, name: nat) returns (v: nat)
      ensures v == Resolve(mem, base, d, Str(mem, name))
    {
      hide Load, Str, SymName, SymSection, SymValue, Nsyms;
      var n, i := Nsyms(mem, base, d), 0;
      while i < n
        invariant i <= n
        invariant Lookup(mem, base, d, Str(mem, name), i, n) == Resolve(mem, base, d, Str(mem, name))
      {
        if Defined(mem, base, d, i) {
          var c := Strcmp(At(At(base, d.strtab), SymName(mem, At(base, d.symtab), i)), name);
          if c == 0 {
            return At(base, SymValue(mem, At(base, d.symtab), i));
          }
        }
        i := i + 1;
      }
      return 0;
    }

    /** ld_apply_xdso. */
    method ApplyCross(p: Pass, tbl: nat, n: nat) returns (ok: bool)
      modifies this
      ensures (mem, ok) == ApplyXdso(old(mem), p, tbl, 0, n)
    {
      hide Load, Store, Resolve, RelOffset, Imports;
      var i := 0;
      while i < n
        invariant i <= n && ApplyXdso(mem, p, tbl, i, n) == ApplyXdso(old(mem), p, tbl, 0, n)
      {
        if Imports(mem, tbl, i) {
          var v := ResolveName(p.provider, p.dyn, NameAt(mem, p, tbl, i));
          if v == 0 {
            return false;
          }
          mem := Store(mem, At(p.client, RelOffset(mem, tbl, i)), 8, v);
        }
        i := i + 1;
      }
      return true;
    }

    /** The cross-object block of ld_main. */
    method CrossObject(app: nat, a: Dyn, libc: nat, l: Dyn) returns (ok: bool)
      modifies this
      ensures (mem, ok) == Cross(old(mem), app, a, libc, l)
    {
      hide ApplyXdso;
      if libc == 0 || a.symtab == 0 || a.strtab == 0 {
        return true;
      }
      var p := PassOf(app, a, libc, l);
      if a.relaSize > 0 {
        ok := ApplyCross(p, At(app, a.rela), Count(a.relaSize));
        if !ok {
          return;
        }
      }
      if a.jmprelSize > 0 {
        ok := ApplyCross(p, At(app, a.jmprel), Count(a.jmprelSize));
        return;
      }
      return true;
    }

    /** ld_main: take the bases and the entry point from the auxiliary vector (a later entry
        overrides), link, and return the entry point, or 0 on failure. */
    method LdMain(auxv: seq<(nat, nat)>) returns (entry: nat)
      modifies this
      ensures var app, libc, e := Aux(auxv, 0x100), Aux(auxv, 0x101), Aux(auxv, 9);
              if e == 0 then entry == 0 && mem == old(mem)
              else (mem, entry) == (Link(old(mem), app, libc).0, if Link(old(mem), app, libc).1 then e else 0)
    {
      hide Dynamic, RelativeOf, Cross;
      var app, libc, e := ReadAux(auxv);
      if e == 0 {
        return 0;
      }
      var l := NO_DYN;
      if libc != 0 {
        var r := WalkDynamic(libc);
        if r.None? {
          return 0;
        }
        l := r.value;
        ApplyRelatives(libc, l);
      }
      if app != 0 {
        var a := WalkDynamic(app);
        if a.Some? {
          ApplyRelatives(app, a.value);
          var ok := CrossObject(app, a.value, libc, l);
          if !ok {
            return 0;
          }
        }
      }
      return e;
    }

    method ReadAux(auxv: seq<(nat, nat)>) returns (app: nat, libc: nat, e: nat)
      ensures app == Aux(auxv, 0x100) && libc == Aux(auxv, 0x101) && e == Aux(auxv, 9)
    {
      app, libc, e := 0, 0, 0;
      var i := 0;
      while i < |auxv| && auxv[i].0 != 0
        invariant i <= |auxv|
        invariant app == Latest(auxv[..i], 0x100) && libc == Latest(auxv[..i], 0x101) && e == Latest(auxv[..i], 9)
        invariant forall k :: 0 <= k < i ==> auxv[k].0 != 0
      {
        assert auxv[..i + 1] == auxv[..i] + [auxv[i]];
        assert auxv[..i + 1][..i] == auxv[..i];
        if auxv[i].0 == 0x100 { app := auxv[i].1; }
        if auxv[i].0 == 0x101 { libc := auxv[i].1; }
        if auxv[i].0 == 9 { e := auxv[i].1; }
        i := i + 1;
      }
      AuxEnd(auxv, i);
    }
  }

  lemma StrHead(m: Bytes, a: nat)
    ensures Str(m, a) == [] <==> Get(m, a) == 0
    ensures Str(m, a) != [] ==> Str(m, a)[0] == Get(m, a)
  {
  }

  function Aux(auxv: seq<(nat, nat)>, kind: nat): nat { Latest(auxv[..Terminator(auxv)], kind) }

  lemma AuxEnd(auxv: seq<(nat, nat)>, i: nat)
    requires i <= |auxv| && (i < |auxv| ==> auxv[i].0 == 0) && forall k :: 0 <= k < i ==> auxv[k].0 != 0
    ensures Terminator(auxv) == i
  {
  }
}
