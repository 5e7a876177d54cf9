/** ELF objects as the byte layout of their records (64-bit little-endian ELF), and what the
    linker reads of them and leaves in memory in terms of those records. */
module ElfImage {
  import opened Bits
  import opened ByteMemory
  import opened Elf
  import opened Relocation

  // ---- records as bytes ----

  function Le(v: nat, n: nat): (bs: seq<Byte>)
    ensures |bs| == n
    decreases n
  {
    if n == 0 then [] else [v % 256] + Le(v / 256, n - 1)
  }

  /** A record's fields in order: width in bytes, and value. */
  type Fields = seq<(nat, nat)>

  function Encode(fs: Fields): seq<Byte> {
    if fs == [] then [] else Le(fs[0].1, fs[0].0) + Encode(fs[1..])
  }

  function Offset(fs: Fields, k: nat): nat
    requires k <= |fs|
  {
    if k == 0 then 0 else Offset(fs, k - 1) + fs[k - 1].0
  }

  ghost predicate BytesAt(m: Bytes, a: nat, bs: seq<Byte>) { forall i :: 0 <= i < |bs| ==> Get(m, a + i) == bs[i] }

  /** The record lies at `a`, below the top of the address space, and its values fit. */
  ghost predicate Holds(m: Bytes, a: nat, fs: Fields) {
    && BytesAt(m, a, Encode(fs)) && a + Offset(fs, |fs|) <= U64
    && forall k :: 0 <= k < |fs| ==> fs[k].1 < Pow256(fs[k].0)
  }

  lemma {:induction false} LoadLe(m: Bytes, a: nat, v: nat, n: nat)
    requires BytesAt(m, a, Le(v, n)) && v < Pow256(n)
    ensures Load(m, a, n) == v
    decreases n
  {
    if n > 0 {
      var bs := Le(v, n);
      assert Get(m, a + 0) == bs[0];
      var rest := Le(v / 256, n - 1);
      forall i | 0 <= i < |rest| ensures Get(m, a + 1 + i) == rest[i] {
        assert Get(m, a + (i + 1)) == bs[i + 1];
      }
      LoadLe(m, a + 1, v / 256, n - 1);
    }
  }

  lemma {:induction false} FieldAt(m: Bytes, a: nat, fs: Fields, k: nat)
    requires BytesAt(m, a, Encode(fs)) && k < |fs| && fs[k].1 < Pow256(fs[k].0)
    ensures Load(m, a + Offset(fs, k), fs[k].0) == fs[k].1
    decreases |fs|
  {
    hide Load;
    var w, v := fs[0].0, fs[0].1;
    if k == 0 {
      forall i | 0 <= i < w ensures Get(m, a + i) == Le(v, w)[i] { assert Encode(fs)[i] == Le(v, w)[i]; }
      LoadLe(m, a, v, w);
    } else {
      var rest := fs[1..];
      forall i | 0 <= i < |Encode(rest)| ensures Get(m, a + w + i) == Encode(rest)[i] {
        assert Get(m, a + (w + i)) == Encode(fs)[w + i];
      }
      FieldAt(m, a + w, rest, k - 1);
      OffsetTail(fs, k);
    }
  }

  lemma {:induction false} OffsetTail(fs: Fields, k: nat)
    requires 1 <= k <= |fs|
    ensures Offset(fs, k) == fs[0].0 + Offset(fs[1..], k - 1)
    decreases k
  {
    if k > 1 { OffsetTail(fs, k - 1); }
  }

  lemma {:induction false} OffsetMono(fs: Fields, k: nat)
    requires k < |fs|
    ensures Offset(fs, k) + fs[k].0 <= Offset(fs, |fs|)
    decreases |fs| - k
  {
    if k + 1 < |fs| { OffsetMono(fs, k + 1); }
  }

  /** Field `k` of a record, read at its offset from an address that may have wrapped. */
  lemma ReadField(m: Bytes, base: nat, x: nat, fs: Fields, k: nat)
    requires Holds(m, At(base, x), fs) && k < |fs| && fs[k].0 > 0
    ensures Load(m, At(base, x + Offset(fs, k)), fs[k].0) == fs[k].1
  {
    hide Load, BytesAt, Encode;
    FieldAt(m, At(base, x), fs, k);
    OffsetMono(fs, k);
    AtPlus(base, x, Offset(fs, k));
  }

  lemma AtPlus(base: nat, x: nat, d: nat)
    requires At(base, x) + d < U64
    ensures At(base, x + d) == At(base, x) + d
  {
    var q, r := (base + x) / U64, (base + x) % U64;
    DivMod(base + x, U64);
    DivModUnique(base + x + d, U64, q, r + d);
  }

  lemma AtAt(base: nat, x: nat, y: nat)
    ensures At(At(base, x), y) == At(base, x + y)
  {
    var q, r := (base + x) / U64, (base + x) % U64;
    DivMod(base + x, U64);
    var s, t := (r + y) / U64, (r + y) % U64;
    DivMod(r + y, U64);
    DivModUnique(base + x + y, U64, q + s, t);
  }

  // ---- the records ----

  datatype Ehdr = Ehdr(ident: (nat, nat), typ: nat, machine: nat, version: nat, entry: nat, phoff: nat, shoff: nat,
                       flags: nat, ehsize: nat, phentsize: nat, phnum: nat, shentsize: nat, shnum: nat, shstrndx: nat)
  datatype Phdr = Phdr(typ: nat, flags: nat, offset: nat, vaddr: nat, paddr: nat, filesz: nat, memsz: nat, align: nat)
  datatype Rela = Rela(offset: nat, sym: nat, typ: nat, addend: nat)
  datatype Sym = Sym(name: nat, info: nat, other: nat, shndx: nat, value: nat, size: nat)

  function EhdrFields(e: Ehdr): Fields {
    [(8, e.ident.0), (8, e.ident.1), (2, e.typ), (2, e.machine), (4, e.version), (8, e.entry), (8, e.phoff),
     (8, e.shoff), (4, e.flags), (2, e.ehsize), (2, e.phentsize), (2, e.phnum), (2, e.shentsize), (2, e.shnum),
     (2, e.shstrndx)]
  }

  function PhdrFields(p: Phdr): Fields {
    [(4, p.typ), (4, p.flags), (8, p.offset), (8, p.vaddr), (8, p.paddr), (8, p.filesz), (8, p.memsz), (8, p.align)]
  }

  function DynFields(e: (nat, nat)): Fields { [(8, e.0), (8, e.1)] }

  /** r_info has the symbol in its upper half and the type in its lower. */
  function RelaFields(r: Rela): Fields { [(8, r.offset), (8, r.sym * 0x1_0000_0000 + r.typ), (8, r.addend)] }

  function SymFields(s: Sym): Fields {
    [(4, s.name), (1, s.info), (1, s.other), (2, s.shndx), (8, s.value), (8, s.size)]
  }

  function HashFields(nbucket: nat, nchain: nat): Fields { [(4, nbucket), (4, nchain)] }

  /** The linker reads each field where the format puts it. */
  lemma EhdrRead(m: Bytes, base: nat, e: Ehdr)
    requires base < U64 && Holds(m, base, EhdrFields(e))
    ensures Phdrs(m, base) == At(base, e.phoff) && Phnum(m, base) == e.phnum
  {
    hide Load, Encode, Holds, Offset;
    var fs := EhdrFields(e);
    EhdrOffsets(e);
    AtZero(base);
    ReadField(m, base, 0, fs, 6);
    ReadField(m, base, 0, fs, 11);
  }

  lemma AtZero(base: nat)
    requires base < U64
    ensures At(base, 0) == base
  {
    DivModUnique(base, U64, 0, base);
  }

  lemma EhdrOffsets(e: Ehdr)
    ensures Offset(EhdrFields(e), 6) == 32 && Offset(EhdrFields(e), 11) == 56
  {
    var fs := EhdrFields(e);
    assert Offset(fs, 1) == 8;
    assert Offset(fs, 2) == 16 && Offset(fs, 3) == 18;
    assert Offset(fs, 4) == 20 && Offset(fs, 5) == 24;
    assert Offset(fs, 6) == 32 && Offset(fs, 7) == 40;
    assert Offset(fs, 8) == 48 && Offset(fs, 9) == 52;
    assert Offset(fs, 10) == 54;
  }

  lemma PhdrRead(m: Bytes, phdrs: nat, i: nat, p: Phdr)
    requires Holds(m, At(phdrs, 56 * i), PhdrFields(p))
    ensures Load(m, At(phdrs, 56 * i), 4) == p.typ && Load(m, At(phdrs, 56 * i + 16), 8) == p.vaddr
    ensures Load(m, At(phdrs, 56 * i + 32), 8) == p.filesz
  {
    hide Load, Encode, Holds;
    var fs := PhdrFields(p);
    assert Offset(fs, 1) == 4 && Offset(fs, 2) == 8;
    assert Offset(fs, 3) == 16 && Offset(fs, 4) == 24;
    assert Offset(fs, 5) == 32;
    hide Offset;
    assert Offset(fs, 0) == 0;
    ReadField(m, phdrs, 56 * i, fs, 0);
    ReadField(m, phdrs, 56 * i, fs, 3);
    ReadField(m, phdrs, 56 * i, fs, 5);
  }

  lemma DynRead(m: Bytes, dyn: nat, i: nat, e: (nat, nat))
    requires Holds(m, At(dyn, 16 * i), DynFields(e))
    ensures Load(m, At(dyn, 16 * i), 8) == e.0 && Load(m, At(dyn, 16 * i + 8), 8) == e.1
  {
    hide Load, Encode, Holds;
    var fs := DynFields(e);
    assert Offset(fs, 0) == 0 && Offset(fs, 1) == 8;
    ReadField(m, dyn, 16 * i, fs, 0);
    ReadField(m, dyn, 16 * i, fs, 1);
  }

  /** Relocation entries come back as encoded. */
  lemma RelaRead(m: Bytes, tbl: nat, i: nat, r: Rela)
    requires Holds(m, At(tbl, 24 * i), RelaFields(r)) && r.sym < U32 && r.typ < U32
    ensures RelOffset(m, tbl, i) == r.offset && RelAddend(m, tbl, i) == r.addend
    ensures RelType(m, tbl, i) == r.typ && RelSym(m, tbl, i) == r.sym
  {
    hide Load, Encode, Holds;
    var fs := RelaFields(r);
    assert Offset(fs, 0) == 0 && Offset(fs, 1) == 8 && Offset(fs, 2) == 16;
    hide Offset;
    ReadField(m, tbl, 24 * i, fs, 0);
    ReadField(m, tbl, 24 * i, fs, 1);
    ReadField(m, tbl, 24 * i, fs, 2);
    DivModUnique(r.sym * U32 + r.typ, U32, r.sym, r.typ);
    DivModUnique(r.sym, U32, 0, r.sym);
  }

  /** So do symbols. */
  lemma SymRead(m: Bytes, tab: nat, i: nat, s: Sym)
    requires Holds(m, At(tab, 24 * i), SymFields(s))
    ensures SymName(m, tab, i) == s.name && SymSection(m, tab, i) == s.shndx && SymValue(m, tab, i) == s.value
  {
    hide Load, Encode, Holds;
    var fs := SymFields(s);
    assert Offset(fs, 0) == 0 && Offset(fs, 1) == 4 && Offset(fs, 2) == 5;
    assert Offset(fs, 3) == 6 && Offset(fs, 4) == 8;
    hide Offset;
    ReadField(m, tab, 24 * i, fs, 0);
    ReadField(m, tab, 24 * i, fs, 3);
    ReadField(m, tab, 24 * i, fs, 4);
  }

  /** The number of symbols searched: the chain count of the hash table if it is 1 to 4096,
      otherwise 256. */
  function Searched(d: Dyn, nchain: nat): nat { if d.hash != 0 && 1 <= nchain <= 4096 then nchain else 256 }

  lemma HashRead(m: Bytes, base: nat, d: Dyn, nbucket: nat, nchain: nat)
    requires d.hash != 0 ==> Holds(m, At(base, d.hash), HashFields(nbucket, nchain))
    ensures Nsyms(m, base, d) == Searched(d, nchain)
  {
    hide Load, Encode, Holds;
    if d.hash != 0 {
      var fs := HashFields(nbucket, nchain);
      assert Offset(fs, 1) == 4;
      ReadField(m, base, d.hash, fs, 1);
    }
  }

  // ---- the dynamic section as its list of pairs ----

  /** Each field is the value of the last pair with its own tag, 0 without one. */
  function DynOf(ps: seq<(nat, nat)>): Dyn {
    Dyn(rela := Latest(ps, 7), relaSize := Latest(ps, 8), jmprel := Latest(ps, 23), jmprelSize := Latest(ps, 2),
        symtab := Latest(ps, 6), strtab := Latest(ps, 5), strsz := Latest(ps, 10), hash := Latest(ps, 4))
  }

  lemma LatestSnoc(ps: seq<(nat, nat)>, p: (nat, nat), kind: nat)
    ensures Latest(ps + [p], kind) == if p.0 == kind then p.1 else Latest(ps, kind)
  {
    assert (ps + [p])[..|ps|] == ps;
  }

  /** The last value: what it is and that none follows. */
  lemma {:induction false} LatestIs(ps: seq<(nat, nat)>, kind: nat) returns (i: nat)
    ensures if i < |ps| then ps[i] == (kind, Latest(ps, kind)) && forall j :: i < j < |ps| ==> ps[j].0 != kind
            else Latest(ps, kind) == 0 && forall j :: 0 <= j < |ps| ==> ps[j].0 != kind
  {
    if ps == [] {
      i := 0;
    } else if ps[|ps| - 1].0 == kind {
      i := |ps| - 1;
    } else {
      i := LatestIs(ps[..|ps| - 1], kind);
      if i >= |ps| - 1 { i := |ps|; }
    }
  }

  lemma NoteIs(ps: seq<(nat, nat)>, p: (nat, nat))
    ensures Note(DynOf(ps), p.0, p.1) == DynOf(ps + [p])
  {
    LatestSnoc(ps, p, 7);
    LatestSnoc(ps, p, 8);
    LatestSnoc(ps, p, 23);
    LatestSnoc(ps, p, 2);
    LatestSnoc(ps, p, 6);
    LatestSnoc(ps, p, 5);
    LatestSnoc(ps, p, 10);
    LatestSnoc(ps, p, 4);
  }

  /** The pairs in memory. */
  ghost predicate PairsAt(m: Bytes, dyn: nat, es: seq<(nat, nat)>) {
    forall i :: 0 <= i < |es| ==> es[i] == (Load(m, At(dyn, 16 * i), 8), Load(m, At(dyn, 16 * i + 8), 8))
  }

  lemma {:induction false} ReadDynFrom(m: Bytes, dyn: nat, es: seq<(nat, nat)>, i: nat)
    requires PairsAt(m, dyn, es) && i <= Terminator(es)
    ensures ReadDyn(m, dyn, i, |es|, DynOf(es[..i])) == DynOf(es[..Terminator(es)])
    decreases |es| - i
  {
    hide Load, Note, DynOf, At;
    if i < |es| {
      assert es[i] == (Load(m, At(dyn, 16 * i), 8), Load(m, At(dyn, 16 * i + 8), 8));
      if es[i].0 != 0 {
        NoteIs(es[..i], es[i]);
        assert es[..i] + [es[i]] == es[..i + 1];
        ReadDynFrom(m, dyn, es, i + 1);
      }
    }
  }

  /** Reading a dynamic section: the pairs before the first with tag 0, and of each of the
      eight tags the last value. */
  lemma ReadDynIs(m: Bytes, dyn: nat, es: seq<(nat, nat)>)
    requires PairsAt(m, dyn, es)
    ensures ReadDyn(m, dyn, 0, |es|, NO_DYN) == DynOf(es[..Terminator(es)])
  {
    assert es[..0] == [] && DynOf([]) == NO_DYN;
    ReadDynFrom(m, dyn, es, 0);
  }

  lemma {:induction false} FindFirst(m: Bytes, base: nat, phdrs: nat, ps: seq<Phdr>, i: nat, k: nat)
    requires forall j :: 0 <= j < |ps| ==> Holds(m, At(phdrs, 56 * j), PhdrFields(ps[j]))
    requires i <= k <= |ps| && (forall j :: i <= j < k ==> ps[j].typ != 2) && (k < |ps| ==> ps[k].typ == 2)
    ensures FindDynamic(m, base, phdrs, i, |ps|) ==
            if k == |ps| then None else Some((At(base, ps[k].vaddr), ps[k].filesz))
    decreases |ps| - i
  {
    hide Load, Holds, At, PhdrFields;
    if i < |ps| {
      PhdrRead(m, phdrs, i, ps[i]);
      if i < k { FindFirst(m, base, phdrs, ps, i + 1, k); }
    }
  }

  /** An object laid out in memory: header, program headers, and the dynamic section that
      program header `k`, the first of type 2, names. */
  ghost predicate Image(m: Bytes, base: nat, e: Ehdr, ps: seq<Phdr>, k: nat, es: seq<(nat, nat)>) {
    && base < U64 && Holds(m, base, EhdrFields(e)) && |ps| == e.phnum && k <= |ps|
    && (forall j :: 0 <= j < |ps| ==> Holds(m, (base + e.phoff + 56 * j) % U64, PhdrFields(ps[j])))
    && (forall j :: 0 <= j < k ==> ps[j].typ != 2)
    && (k < |ps| ==>
          && ps[k].typ == 2 && |es| == ps[k].filesz / 16 % U32
          && forall i :: 0 <= i < |es| ==> Holds(m, (base + ps[k].vaddr + 16 * i) % U64, DynFields(es[i])))
  }

  /** ld_walk_dynamic inverts the layout: of every object it reads what its records say. */
  lemma DynamicOfImage(m: Bytes, base: nat, e: Ehdr, ps: seq<Phdr>, k: nat, es: seq<(nat, nat)>)
    requires Image(m, base, e, ps, k, es)
    ensures Dynamic(m, base) == if k == |ps| || (base + ps[k].vaddr) % U64 == 0 then None
                                else Some(DynOf(es[..Terminator(es)]))
  {
    hide Load, Holds, EhdrFields, PhdrFields, DynFields, ReadDyn, DynOf, FindDynamic;
    EhdrRead(m, base, e);
    forall j | 0 <= j < |ps| ensures Holds(m, At(At(base, e.phoff), 56 * j), PhdrFields(ps[j])) {
      AtAt(base, e.phoff, 56 * j);
    }
    FindFirst(m, base, At(base, e.phoff), ps, 0, k);
    if k < |ps| {
      var dyn := At(base, ps[k].vaddr);
      forall i | 0 <= i < |es|
        ensures es[i] == (Load(m, At(dyn, 16 * i), 8), Load(m, At(dyn, 16 * i + 8), 8))
      {
        AtAt(base, ps[k].vaddr, 16 * i);
        DynRead(m, dyn, i, es[i]);
      }
      ReadDynIs(m, dyn, es);
    }
  }

  // ---- a link in terms of the records ----

  /** Relocation table of `base` at `off`. */
  ghost predicate RelasAt(m: Bytes, base: nat, off: nat, size: nat, rs: seq<Rela>) {
    && |rs| == size / 24 % U32
    && forall i :: 0 <= i < |rs| ==>
         rs[i].sym < U32 && rs[i].typ < U32 && Holds(m, (base + off + 24 * i) % U64, RelaFields(rs[i]))
  }

  ghost predicate SymsAt(m: Bytes, base: nat, off: nat, ss: seq<Sym>) {
    forall i :: 0 <= i < |ss| ==> Holds(m, (base + off + 24 * i) % U64, SymFields(ss[i]))
  }

  /** The symbol is defined by the object, and has the name. */
  ghost predicate Named(m: Bytes, base: nat, d: Dyn, s: Sym, name: seq<Byte>) {
    && s.name != 0 && (d.strsz == 0 || s.name < d.strsz) && s.shndx != 0
    && Str(m, (base + d.strtab + s.name) % U64) == name
  }

  /** The first symbol of that name. */
  ghost predicate FirstNamed(m: Bytes, base: nat, d: Dyn, ss: seq<Sym>, name: seq<Byte>, i: nat) {
    i < |ss| && Named(m, base, d, ss[i], name) && forall j :: 0 <= j < i ==> !Named(m, base, d, ss[j], name)
  }

  /** Every RELATIVE (1027) slot of the table is the base plus its addend. */
  ghost predicate RelativeDone(m': Bytes, base: nat, rs: seq<Rela>) {
    forall k :: 0 <= k < |rs| && rs[k].typ == 1027 ==>
      Load(m', (base + rs[k].offset) % U64, 8) == (base + rs[k].addend) % U64
  }

  /** Import entry `k`: its slot is the address of the first libc symbol with its symbol's name. */
  ghost predicate ImportDone(m: Bytes, m': Bytes, app: nat, a: Dyn, cs: seq<Sym>, libc: nat, l: Dyn, ss: seq<Sym>,
                             r: Rela)
    requires r.sym < |cs|
  {
    exists i: nat :: FirstNamed(m, libc, l, ss, Str(m, (app + a.strtab + cs[r.sym].name) % U64), i)
             && Load(m', (app + r.offset) % U64, 8) == (libc + ss[i].value) % U64
  }

  /** Every GLOB_DAT (1025) and JUMP_SLOT (1026) slot of the table is bound. */
  ghost predicate ImportsDone(m: Bytes, m': Bytes, app: nat, a: Dyn, cs: seq<Sym>, libc: nat, l: Dyn, ss: seq<Sym>,
                              rs: seq<Rela>) {
    forall k :: 0 <= k < |rs| && (rs[k].typ == 1025 || rs[k].typ == 1026) && rs[k].sym < |cs| ==>
      ImportDone(m, m', app, a, cs, libc, l, ss, rs[k])
  }

  lemma RelaAt(m: Bytes, base: nat, off: nat, size: nat, rs: seq<Rela>, k: nat)
    requires RelasAt(m, base, off, size, rs) && k < |rs|
    ensures var tbl := At(base, off);
            && RelOffset(m, tbl, k) == rs[k].offset && RelAddend(m, tbl, k) == rs[k].addend
            && RelType(m, tbl, k) == rs[k].typ && RelSym(m, tbl, k) == rs[k].sym
  {
    hide Holds, RelaFields, RelOffset, RelAddend, RelType, RelSym;
    AtAt(base, off, 24 * k);
    RelaRead(m, At(base, off), k, rs[k]);
  }

  lemma SymAt(m: Bytes, base: nat, off: nat, ss: seq<Sym>, k: nat)
    requires SymsAt(m, base, off, ss) && k < |ss|
    ensures var tab := At(base, off);
            && SymName(m, tab, k) == ss[k].name && SymSection(m, tab, k) == ss[k].shndx
            && SymValue(m, tab, k) == ss[k].value
  {
    hide Holds, SymFields, SymName, SymSection, SymValue;
    AtAt(base, off, 24 * k);
    SymRead(m, At(base, off), k, ss[k]);
  }

  lemma RelativeByRecord(m: Bytes, m': Bytes, base: nat, off: nat, size: nat, rs: seq<Rela>)
    requires RelasAt(m, base, off, size, rs) && (size != 0 ==> Relocated(m, m', base, At(base, off), Count(size)))
    ensures RelativeDone(m', base, rs)
  {
    hide RelasAt, Load, RelType, RelOffset, RelAddend;
    forall k | 0 <= k < |rs| && rs[k].typ == 1027
      ensures Load(m', (base + rs[k].offset) % U64, 8) == (base + rs[k].addend) % U64
    {
      TableSize(m, base, off, size, rs);
      RelaAt(m, base, off, size, rs, k);
    }
  }

  lemma TableSize(m: Bytes, base: nat, off: nat, size: nat, rs: seq<Rela>)
    requires RelasAt(m, base, off, size, rs)
    ensures Count(size) == |rs| && (|rs| > 0 ==> size != 0)
  {
    hide Holds;
  }

  lemma ProvidesIs(m: Bytes, base: nat, d: Dyn, ss: seq<Sym>, name: seq<Byte>, i: nat)
    requires SymsAt(m, base, d.symtab, ss) && i < |ss|
    ensures Provides(m, base, d, name, i) <==> Named(m, base, d, ss[i], name)
  {
    hide SymsAt, Str, SymName, SymSection;
    SymAt(m, base, d.symtab, ss, i);
    AtAt(base, d.strtab, ss[i].name);
  }

  /** The linker's lookup finds the first symbol of the name. */
  lemma ResolveIs(m: Bytes, base: nat, d: Dyn, ss: seq<Sym>, name: seq<Byte>)
    requires SymsAt(m, base, d.symtab, ss) && |ss| == Nsyms(m, base, d) && Resolve(m, base, d, name) != 0
    ensures exists i: nat :: FirstNamed(m, base, d, ss, name, i)
                          && Resolve(m, base, d, name) == (base + ss[i].value) % U64
  {
    hide SymsAt, Provides, Named, SymValue, Lookup, Nsyms;
    var i := LookupFirst(m, base, d, name, 0, |ss|);
    ProvidesIs(m, base, d, ss, name, i);
    SymAt(m, base, d.symtab, ss, i);
    forall j | 0 <= j < i ensures !Named(m, base, d, ss[j], name) { ProvidesIs(m, base, d, ss, name, j); }
    assert FirstNamed(m, base, d, ss, name, i);
  }

  lemma AtIs(base: nat, x: nat, y: nat)
    ensures At(base, x) == (base + x) % U64 && At(At(base, x), y) == (base + x + y) % U64
  {
    AtAt(base, x, y);
  }

  /** What entry `k` of the table imports, in the linker's terms and in the records'. */
  lemma ImportIs(m: Bytes, app: nat, a: Dyn, cs: seq<Sym>, libc: nat, l: Dyn, off: nat, size: nat, rs: seq<Rela>,
                 k: nat)
    requires RelasAt(m, app, off, size, rs) && SymsAt(m, app, a.symtab, cs) && k < |rs| && rs[k].sym < |cs|
    ensures var p, tbl := PassOf(app, a, libc, l), At(app, off);
            && (Imports(m, tbl, k) <==> rs[k].typ == 1025 || rs[k].typ == 1026)
            && At(p.client, RelOffset(m, tbl, k)) == (app + rs[k].offset) % U64
            && Target(m, p, tbl, k) == Resolve(m, libc, l, Str(m, (app + a.strtab + cs[rs[k].sym].name) % U64))
  {
    hide RelasAt, SymsAt, RelType, RelOffset, RelSym, SymName, Str, Resolve, At;
    RelaAt(m, app, off, size, rs, k);
    SymAt(m, app, a.symtab, cs, rs[k].sym);
    AtIs(app, a.strtab, cs[rs[k].sym].name);
    AtIs(app, rs[k].offset, 0);
  }

  lemma ImportsByRecord(m: Bytes, m': Bytes, app: nat, a: Dyn, cs: seq<Sym>, libc: nat, l: Dyn, ss: seq<Sym>,
                        off: nat, size: nat, rs: seq<Rela>)
    requires RelasAt(m, app, off, size, rs) && SymsAt(m, app, a.symtab, cs)
    requires SymsAt(m, libc, l.symtab, ss) && |ss| == Nsyms(m, libc, l)
    requires size != 0 ==> Bound(m, m', PassOf(app, a, libc, l), At(app, off), Count(size))
    ensures ImportsDone(m, m', app, a, cs, libc, l, ss, rs)
  {
    hide RelasAt, SymsAt, Load, RelOffset, Str, Resolve, Nsyms, At, Imports, Target, PassOf, FirstNamed;
    TableSize(m, app, off, size, rs);
    forall k | 0 <= k < |rs| && (rs[k].typ == 1025 || rs[k].typ == 1026) && rs[k].sym < |cs|
      ensures ImportDone(m, m', app, a, cs, libc, l, ss, rs[k])
    {
      ImportIs(m, app, a, cs, libc, l, off, size, rs, k);
      ResolveIs(m, libc, l, ss, Str(m, (app + a.strtab + cs[rs[k].sym].name) % U64));
    }
  }

  /** Byte `x` belongs to a slot of the table with one of the types `lo` to `hi`. */
  ghost predicate InSlots(x: nat, base: nat, rs: seq<Rela>, lo: nat, hi: nat) {
    exists k :: 0 <= k < |rs| && lo <= rs[k].typ <= hi && InSlot(x, base, rs[k])
  }

  ghost predicate InSlot(x: nat, base: nat, r: Rela) {
    (base + r.offset) % U64 <= x < (base + r.offset) % U64 + 8
  }

  /** Byte `x` is in no slot that the three tables relocate. */
  ghost predicate Outside(x: nat, app: nat, libc: nat, lr: seq<Rela>, ar: seq<Rela>, aj: seq<Rela>) {
    !InSlots(x, libc, lr, 1027, 1027) && !InSlots(x, app, ar, 1025, 1027) && !InSlots(x, app, aj, 1025, 1026)
  }

  lemma RelativeInSlots(m: Bytes, base: nat, d: Dyn, rs: seq<Rela>, w: Write, x: nat)
    requires RelasAt(m, base, d.rela, d.relaSize, rs)
    requires w in RelativePlanOf(m, base, d) && w.slot <= x < w.slot + 8
    ensures InSlots(x, base, rs, 1027, 1027)
  {
    hide RelasAt, RelType, RelOffset, At, Count;
    TableSize(m, base, d.rela, d.relaSize, rs);
    var k := RelativeOnly(m, base, At(base, d.rela), 0, |rs|, w);
    RelaAt(m, base, d.rela, d.relaSize, rs, k);
    AtIs(base, rs[k].offset, 0);
    assert InSlot(x, base, rs[k]);
  }

  lemma ImportInSlots(m: Bytes, p: Pass, off: nat, size: nat, rs: seq<Rela>, w: Write, x: nat)
    requires RelasAt(m, p.client, off, size, rs)
    requires w in XdsoPlanOf(m, p, off, size).0 && w.slot <= x < w.slot + 8
    ensures InSlots(x, p.client, rs, 1025, 1026)
  {
    hide RelasAt, RelType, RelOffset, At, Count;
    TableSize(m, p.client, off, size, rs);
    var k := XdsoOnly(m, p, At(p.client, off), 0, |rs|, w);
    RelaAt(m, p.client, off, size, rs, k);
    AtIs(p.client, rs[k].offset, 0);
    assert InSlot(x, p.client, rs[k]);
  }

  lemma OnlySlots(m: Bytes, app: nat, libc: nat, a: Dyn, l: Dyn, lr: seq<Rela>, ar: seq<Rela>, aj: seq<Rela>, x: nat)
    requires app != 0 && libc != 0 && Dynamic(m, app) == Some(a) && Dynamic(m, libc) == Some(l)
    requires RelasAt(m, libc, l.rela, l.relaSize, lr) && RelasAt(m, app, a.rela, a.relaSize, ar)
    requires RelasAt(m, app, a.jmprel, a.jmprelSize, aj) && x in Slots(Plan(m, app, libc).0)
    ensures InSlots(x, libc, lr, 1027, 1027) || InSlots(x, app, ar, 1027, 1027) || InSlots(x, app, ar, 1025, 1026) ||
            InSlots(x, app, aj, 1025, 1026)
  {
    hide RelasAt, Dynamic, Slots, RelativePlanOf, XdsoPlanOf, InSlots;
    var w := SlotsMember(Plan(m, app, libc).0, x);
    var p := PassOf(app, a, libc, l);
    if w in RelativePlanOf(m, libc, l) {
      RelativeInSlots(m, libc, l, lr, w, x);
    } else if w in RelativePlanOf(m, app, a) {
      RelativeInSlots(m, app, a, ar, w, x);
    } else if w in XdsoPlanOf(m, p, a.rela, a.relaSize).0 {
      ImportInSlots(m, p, a.rela, a.relaSize, ar, w, x);
    } else {
      ImportInSlots(m, p, a.jmprel, a.jmprelSize, aj, w, x);
    }
  }

  /** A successful link of an application against libc, read off their records: RELATIVE slots
      of both hold base plus addend, the application's import slots hold the addresses of the
      first libc symbols of those names, and no byte outside these slots changes. */
  lemma LinkOfImage(m: Bytes, app: nat, libc: nat, a: Dyn, l: Dyn, lr: seq<Rela>, ar: seq<Rela>, aj: seq<Rela>,
                    cs: seq<Sym>, ss: seq<Sym>)
    requires app != 0 && libc != 0 && Dynamic(m, app) == Some(a) && Dynamic(m, libc) == Some(l)
    requires a.symtab != 0 && a.strtab != 0
    requires RelasAt(m, libc, l.rela, l.relaSize, lr) && RelasAt(m, app, a.rela, a.relaSize, ar)
    requires RelasAt(m, app, a.jmprel, a.jmprelSize, aj) && SymsAt(m, app, a.symtab, cs)
    requires SymsAt(m, libc, l.symtab, ss) && |ss| == Nsyms(m, libc, l)
    requires Plan(m, app, libc).1 && Apart(Plan(m, app, libc).0) && Placed(m, app, libc, Slots(Plan(m, app, libc).0))
    ensures var (m', ok) := Link(m, app, libc);
            && ok && RelativeDone(m', libc, lr) && RelativeDone(m', app, ar)
            && ImportsDone(m, m', app, a, cs, libc, l, ss, ar) && ImportsDone(m, m', app, a, cs, libc, l, ss, aj)
            && forall x: nat :: Outside(x, app, libc, lr, ar, aj) ==> Get(m', x) == Get(m, x)
  {
    hide RelasAt, SymsAt, Dynamic, Plan, Apart, Placed, Slots, Link, Relocated, Bound, RelativeDone;
    hide ImportsDone, PassOf, At, Count, Nsyms, Get, InSlot;
    LinkExact(m, app, libc);
    var m' := Link(m, app, libc).0;
    forall x: nat | Outside(x, app, libc, lr, ar, aj)
      ensures Get(m', x) == Get(m, x)
    {
      if x in Slots(Plan(m, app, libc).0) { OnlySlots(m, app, libc, a, l, lr, ar, aj, x); }
    }
    RelativeByRecord(m, m', libc, l.rela, l.relaSize, lr);
    RelativeByRecord(m, m', app, a.rela, a.relaSize, ar);
    ImportsByRecord(m, m', app, a, cs, libc, l, ss, a.rela, a.relaSize, ar);
    ImportsByRecord(m, m', app, a, cs, libc, l, ss, a.jmprel, a.jmprelSize, aj);
  }
}
