/** What the dynamic linker reads of a loaded ELF object: the dynamic section, relocation
    and symbol entries, names. All addresses are 64-bit and wrap. */
module Elf {
  import opened ByteMemory

  const U32 := 0x1_0000_0000
  const U64 := 0x1_0000_0000_0000_0000

  /** base + k as a 64-bit address. */
  function At(base: nat, k: nat): (a: nat)
    ensures a < U64
  {
    (base + k) % U64
  }

  datatype Option<T> = None | Some(value: T)

  /** The fields of `struct ld_dyn`. */
  datatype Dyn = Dyn(rela: nat, relaSize: nat, jmprel: nat, jmprelSize: nat, symtab: nat, strtab: nat, strsz: nat,
      hash: nat)

  const NO_DYN := Dyn(0, 0, 0, 0, 0, 0, 0, 0)

  const PT_DYNAMIC := 2
  const RELATIVE := 1027
  const GLOB_DAT := 1025
  const JUMP_SLOT := 1026

  // ---- lists of pairs that end at kind 0 ----

  /** Number of entries before the terminating kind 0. */
  function Terminator(ps: seq<(nat, nat)>): (n: nat)
    ensures n <= |ps| && (n < |ps| ==> ps[n].0 == 0) && forall k :: 0 <= k < n ==> ps[k].0 != 0
  {
    if ps == [] || ps[0].0 == 0 then 0 else 1 + Terminator(ps[1..])
  }

  /** The value of the last pair of a kind, 0 without one. */
  function Latest(ps: seq<(nat, nat)>, kind: nat): nat {
    if ps == [] then 0
    else if ps[|ps| - 1].0 == kind then ps[|ps| - 1].1
    else Latest(ps[..|ps| - 1], kind)
  }

  // ---- the dynamic section ----

  /** Address and size of the first PT_DYNAMIC segment from program header i on. */
  function FindDynamic(m: Bytes, base: nat, phdrs: nat, i: nat, n: nat): Option<(nat, nat)>
    decreases n - i
  {
    if i >= n then None
    else if Load(m, At(phdrs, 56 * i), 4) == PT_DYNAMIC then
      Some((At(base, Load(m, At(phdrs, 56 * i + 16), 8)), Load(m, At(phdrs, 56 * i + 32), 8)))
    else FindDynamic(m, base, phdrs, i + 1, n)
  }

  /** One dynamic entry recorded. */
  function Note(d: Dyn, tag: nat, v: nat): Dyn {
    if tag == 7 then d.(rela := v)
    else if tag == 8 then d.(relaSize := v)
    else if tag == 23 then d.(jmprel := v)
    else if tag == 2 then d.(jmprelSize := v)
    else if tag == 6 then d.(symtab := v)
    else if tag == 5 then d.(strtab := v)
    else if tag == 10 then d.(strsz := v)
    else if tag == 4 then d.(hash := v)
    else d
  }

  /** Entries i..n of the dynamic section, up to DT_NULL; a later entry overrides. */
  function ReadDyn(m: Bytes, dyn: nat, i: nat, n: nat, d: Dyn): Dyn
    decreases n - i
  {
    if i >= n then d else
    var tag := Load(m, At(dyn, 16 * i), 8);
    if tag == 0 then d else ReadDyn(m, dyn, i + 1, n, Note(d, tag, Load(m, At(dyn, 16 * i + 8), 8)))
  }

  function Phdrs(m: Bytes, base: nat): nat { At(base, Load(m, At(base, 32), 8)) }
  function Phnum(m: Bytes, base: nat): nat { Load(m, At(base, 56), 2) }

  function Dynamic(m: Bytes, base: nat): Option<Dyn> {
    match FindDynamic(m, base, Phdrs(m, base), 0, Phnum(m, base))
    case None => None
    case Some(seg) => if seg.0 == 0 then None else Some(ReadDyn(m, seg.0, 0, seg.1 / 16 % U32, NO_DYN))
  }

  // ---- relocation and symbol entries ----

  function RelOffset(m: Bytes, tbl: nat, i: nat): nat { Load(m, At(tbl, 24 * i), 8) }
  function RelType(m: Bytes, tbl: nat, i: nat): nat { Load(m, At(tbl, 24 * i + 8), 8) % U32 }
  function RelSym(m: Bytes, tbl: nat, i: nat): nat { Load(m, At(tbl, 24 * i + 8), 8) / U32 % U32 }
  function RelAddend(m: Bytes, tbl: nat, i: nat): nat { Load(m, At(tbl, 24 * i + 16), 8) }
  function Count(size: nat): nat { size / 24 % U32 }

  function SymName(m: Bytes, tab: nat, i: nat): nat { Load(m, At(tab, 24 * i), 4) }
  function SymSection(m: Bytes, tab: nat, i: nat): nat { Load(m, At(tab, 24 * i + 6), 2) }
  function SymValue(m: Bytes, tab: nat, i: nat): nat { Load(m, At(tab, 24 * i + 8), 8) }

  // ---- names ----

  /** Bytes of memory at or above `a` that were ever written: bounds a string's length. */
  ghost function Above(m: Bytes, a: nat): nat {
    |set k | k in m && k >= a|
  }

  lemma AboveShrinks(m: Bytes, a: nat)
    requires a in m
    ensures Above(m, a + 1) < Above(m, a)
  {
    var big, small := set k | k in m && k >= a, set k | k in m && k >= a + 1;
    assert big == small + {a} && a !in small;
  }

  /** The zero-terminated string at `a`. */
  ghost function Str(m: Bytes, a: nat): seq<Byte>
    decreases Above(m, a)
  {
    if Get(m, a) == 0 then [] else
    AboveShrinks(m, a);
    [Get(m, a)] + Str(m, a + 1)
  }

  /** How many symbols are searched: the hash table's count, or 256 when it is absent, zero
      or above 4096. */
  function Nsyms(m: Bytes, base: nat, d: Dyn): nat {
    var n := if d.hash == 0 then 0 else Load(m, At(base, d.hash + 4), 4);
    if n == 0 || n > 4096 then 256 else n
  }

  /** Symbol i has a name within the string table and is defined. */
  predicate Defined(m: Bytes, base: nat, d: Dyn, i: nat) {
    var tab, s := At(base, d.symtab), SymName(m, At(base, d.symtab), i);
    s != 0 && (d.strsz != 0 ==> s < d.strsz) && SymSection(m, tab, i) != 0
  }

  /** Symbol i is defined and has the name. */
  ghost predicate Provides(m: Bytes, base: nat, d: Dyn, name: seq<Byte>, i: nat) {
    Defined(m, base, d, i) && Str(m, At(At(base, d.strtab), SymName(m, At(base, d.symtab), i))) == name
  }

  /** Runtime address of the first symbol from i on that provides the name, 0 if none. */
  ghost function Lookup(m: Bytes, base: nat, d: Dyn, name: seq<Byte>, i: nat, n: nat): nat
    decreases n - i
  {
    if i >= n then 0
    else if Provides(m, base, d, name, i) then At(base, SymValue(m, At(base, d.symtab), i))
    else Lookup(m, base, d, name, i + 1, n)
  }

  ghost function Resolve(m: Bytes, base: nat, d: Dyn, name: seq<Byte>): nat {
    Lookup(m, base, d, name, 0, Nsyms(m, base, d))
  }

  /** A resolved name is the base plus the value of the first provider in range. */
  lemma {:induction false} LookupFirst(m: Bytes, base: nat, d: Dyn, name: seq<Byte>, i: nat, n: nat) returns (k: nat)
    ensures if k < n then
              && i <= k && Provides(m, base, d, name, k) && (forall j :: i <= j < k ==> !Provides(m, base, d, name, j))
              && Lookup(m, base, d, name, i, n) == At(base, SymValue(m, At(base, d.symtab), k))
            else
              (forall j :: i <= j < n ==> !Provides(m, base, d, name, j)) && Lookup(m, base, d, name, i, n) == 0
    decreases n - i
  {
    hide Provides;
    if i >= n {
      k := n;
    } else if Provides(m, base, d, name, i) {
      k := i;
    } else {
      k := LookupFirst(m, base, d, name, i + 1, n);
    }
  }

  // ---- reads that a set of written bytes does not disturb ----

  ghost predicate Stable(m: Bytes, m': Bytes, s: set<nat>) {
    forall x: nat :: x !in s ==> Get(m', x) == Get(m, x)
  }

  ghost predicate Clear(a: nat, n: nat, s: set<nat>) {
    forall x :: a <= x < a + n ==> x !in s
  }

  lemma LoadStable(m: Bytes, m': Bytes, s: set<nat>, a: nat, n: nat)
    requires Stable(m, m', s) && Clear(a, n, s)
    ensures Load(m', a, n) == Load(m, a, n)
  {
    LoadFrame(m, m', a, n);
  }

  /** The string at `a`, terminator included, is outside the written bytes. */
  ghost predicate StrClear(m: Bytes, a: nat, s: set<nat>) {
    Clear(a, |Str(m, a)| + 1, s)
  }

  lemma {:induction false} StrStable(m: Bytes, m': Bytes, s: set<nat>, a: nat)
    requires Stable(m, m', s) && StrClear(m, a, s)
    ensures Str(m', a) == Str(m, a)
    decreases Above(m, a)
  {
    assert a !in s;
    if Get(m, a) != 0 {
      AboveShrinks(m, a);
      StrStable(m, m', s, a + 1);
    }
  }

  /** Program headers and dynamic entries are outside the written bytes. */
  ghost predicate HeadersClear(m: Bytes, base: nat, s: set<nat>) {
    && Clear(At(base, 32), 8, s) && Clear(At(base, 56), 2, s)
    && (forall i :: 0 <= i < Phnum(m, base) ==> PhdrClear(Phdrs(m, base), i, s))
    && var seg := FindDynamic(m, base, Phdrs(m, base), 0, Phnum(m, base));
       seg.Some? ==> forall i :: 0 <= i < seg.value.1 / 16 % U32 ==> EntryClear(seg.value.0, i, s)
  }

  ghost predicate PhdrClear(phdrs: nat, i: nat, s: set<nat>) {
    Clear(At(phdrs, 56 * i), 4, s) && Clear(At(phdrs, 56 * i + 16), 8, s) && Clear(At(phdrs, 56 * i + 32), 8, s)
  }

  ghost predicate EntryClear(dyn: nat, i: nat, s: set<nat>) {
    Clear(At(dyn, 16 * i), 8, s) && Clear(At(dyn, 16 * i + 8), 8, s)
  }

  lemma {:induction false} FindStable(m: Bytes, m': Bytes, s: set<nat>, base: nat, phdrs: nat, i: nat, n: nat)
    requires Stable(m, m', s) && forall k :: i <= k < n ==> PhdrClear(phdrs, k, s)
    ensures FindDynamic(m', base, phdrs, i, n) == FindDynamic(m, base, phdrs, i, n)
    decreases n - i
  {
    hide Stable, Load, Clear;
    if i < n {
      assert PhdrClear(phdrs, i, s);
      LoadStable(m, m', s, At(phdrs, 56 * i), 4);
      LoadStable(m, m', s, At(phdrs, 56 * i + 16), 8);
      LoadStable(m, m', s, At(phdrs, 56 * i + 32), 8);
      FindStable(m, m', s, base, phdrs, i + 1, n);
    }
  }

  lemma {:induction false} ReadStable(m: Bytes, m': Bytes, s: set<nat>, dyn: nat, i: nat, n: nat, d: Dyn)
    requires Stable(m, m', s) && forall k :: i <= k < n ==> EntryClear(dyn, k, s)
    ensures ReadDyn(m', dyn, i, n, d) == ReadDyn(m, dyn, i, n, d)
    decreases n - i
  {
    hide Stable, Load, Clear, Note;
    if i < n {
      assert EntryClear(dyn, i, s);
      LoadStable(m, m', s, At(dyn, 16 * i), 8);
      LoadStable(m, m', s, At(dyn, 16 * i + 8), 8);
      var tag, v := Load(m, At(dyn, 16 * i), 8), Load(m, At(dyn, 16 * i + 8), 8);
      ReadStable(m, m', s, dyn, i + 1, n, Note(d, tag, v));
    }
  }

  lemma DynamicStable(m: Bytes, m': Bytes, s: set<nat>, base: nat)
    requires Stable(m, m', s) && HeadersClear(m, base, s)
    ensures Dynamic(m', base) == Dynamic(m, base)
  {
    hide Stable, Load, Clear, At;
    LoadStable(m, m', s, At(base, 32), 8);
    LoadStable(m, m', s, At(base, 56), 2);
    FindStable(m, m', s, base, Phdrs(m, base), 0, Phnum(m, base));
    var seg := FindDynamic(m, base, Phdrs(m, base), 0, Phnum(m, base));
    if seg.Some? {
      ReadStable(m, m', s, seg.value.0, 0, seg.value.1 / 16 % U32, NO_DYN);
    }
  }
}
