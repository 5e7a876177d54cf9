/** Stage-1 translation descriptors (4 KB granule): how the kernel packs a physical
    address and its flags into one 64-bit word, and how it takes them apart again. */
module Descriptors {
  import opened Bits

  const PAGE_SIZE: nat := 0x1000
  const PHYS_LIMIT: nat := 0x1_0000_0000_0000
  const BLOCK_2M: nat := 0x20_0000
  const BLOCK_1G: nat := 0x4000_0000
  const BLOCK_512G: nat := 0x80_0000_0000

  const D_VALID: nat := 0x1
  const D_TABLE: nat := 0x2
  const D_ATTR_DEVICE: nat := 0x8
  const D_AP_RW_EL0: nat := 0x40
  const D_SH_INNER: nat := 0x300
  const D_AF: nat := 0x400
  const D_PXN: nat := 0x20_0000_0000_0000
  const D_UXN: nat := 0x40_0000_0000_0000
  const D_PA_MASK: nat := 0xffff_ffff_f000

  /** A page frame address a table or a page may live at. */
  predicate Frame(pa: nat) {
    0 < pa < PHYS_LIMIT && pa % PAGE_SIZE == 0
  }

  predicate IsValid(e: nat) { And(e, D_VALID) != 0 }

  predicate IsTable(e: nat) { And(e, D_VALID) != 0 && And(e, D_TABLE) != 0 }

  function PaOf(e: nat): nat { And(e, D_PA_MASK) }

  /** Next-level table descriptor. */
  function TableDesc(pa: nat): nat { Or(Or(pa, D_VALID), D_TABLE) }

  /** 4 KB user page: Normal, read-write at EL0 and EL1. */
  function PageDesc(pa: nat): nat {
    Or(Or(Or(Or(Or(And(pa, D_PA_MASK), D_VALID), D_TABLE), D_AP_RW_EL0), D_SH_INNER), D_AF)
  }

  /** Kernel block of Normal memory: EL1 only, not executable at EL0. */
  function NormalBlock(pa: nat): nat {
    Or(Or(Or(Or(pa, D_VALID), D_SH_INNER), D_AF), D_UXN)
  }

  /** Kernel block of Device memory: EL1 only, never executable. */
  function DeviceBlock(pa: nat): nat {
    Or(Or(Or(Or(Or(pa, D_VALID), D_ATTR_DEVICE), D_AF), D_PXN), D_UXN)
  }

  predicate IsDevice(e: nat) { (e / 4) % 8 == 2 }

  predicate UserAccess(e: nat) { And(e, D_AP_RW_EL0) != 0 }

  /** The word with physical address `pa`, low attribute bits `low` and upper bits `hi`. */
  function Word(pa: nat, low: nat, hi: nat): nat { pa + low + hi * PHYS_LIMIT }

  predicate Fits(pa: nat, low: nat) {
    pa % PAGE_SIZE == 0 && pa < PHYS_LIMIT && low < PAGE_SIZE
  }

  /** The attribute bits decide a word's remainder by any divisor of the page size. */
  lemma LowMod(pa: nat, low: nat, hi: nat, d: nat, q: nat)
    requires Fits(pa, low)
    requires d >= 1 && d * q == PAGE_SIZE
    ensures Word(pa, low, hi) % d == low % d
  {
    var m := pa / PAGE_SIZE;
    DivMod(low, d);
    var z := m + hi * 0x10_0000_0000;
    assert Word(pa, low, hi) == PAGE_SIZE * z + low;
    assert PAGE_SIZE * z == d * (q * z) by {
      assert (d * q) * z == d * (q * z);
    }
    assert d * (q * z) + d * (low / d) == d * (q * z + low / d);
    DivModUnique(Word(pa, low, hi), d, q * z + low / d, low % d);
  }

  lemma PaOfWord(pa: nat, low: nat, hi: nat)
    requires Fits(pa, low)
    ensures PaOf(Word(pa, low, hi)) == pa
  {
    hide And, Pow2;
    var e := Word(pa, low, hi);
    WordRemainders(pa, low, hi);
    Powers();
    AndField(e, 48, 12);
  }

  lemma WordRemainders(pa: nat, low: nat, hi: nat)
    requires Fits(pa, low)
    ensures Word(pa, low, hi) % PHYS_LIMIT == pa + low && Word(pa, low, hi) % PAGE_SIZE == low
  {
    var e, m := Word(pa, low, hi), pa / PAGE_SIZE;
    DivModUnique(e, PHYS_LIMIT, hi, pa + low);
    DivModUnique(e, PAGE_SIZE, m + hi * 0x10_0000_0000, low);
  }

  lemma ValidWord(pa: nat, low: nat, hi: nat)
    requires Fits(pa, low)
    ensures IsValid(Word(pa, low, hi)) <==> low % 2 == 1
  {
    var e := Word(pa, low, hi);
    LowMod(pa, low, hi, 2, 0x800);
    Powers();
    AndField(e, 1, 0);
  }

  lemma TableWord(pa: nat, low: nat, hi: nat)
    requires Fits(pa, low)
    ensures IsTable(Word(pa, low, hi)) <==> low % 4 == 3
  {
    var e := Word(pa, low, hi);
    LowMod(pa, low, hi, 4, 0x400);
    LowMod(pa, low, hi, 2, 0x800);
    Powers();
    AndField(e, 1, 0);
    AndField(e, 2, 1);
  }

  lemma UserWord(pa: nat, low: nat, hi: nat)
    requires Fits(pa, low)
    ensures UserAccess(Word(pa, low, hi)) <==> low % 0x80 >= 0x40
  {
    var e := Word(pa, low, hi);
    LowMod(pa, low, hi, 0x80, 0x20);
    LowMod(pa, low, hi, 0x40, 0x40);
    Powers();
    assert Pow2(7) == 0x80;
    AndField(e, 7, 6);
  }

  lemma DeviceWord(pa: nat, low: nat, hi: nat)
    requires Fits(pa, low)
    ensures IsDevice(Word(pa, low, hi)) <==> (low / 4) % 8 == 2
  {
    var e := Word(pa, low, hi);
    var m, a := pa / PAGE_SIZE, low / 4;
    var k := 0x400 * m + a + hi * 0x4000_0000_0000;
    DivModUnique(e, 4, k, low % 4);
    DivModUnique(k, 8, 0x80 * m + a / 8 + hi * 0x800_0000_0000, a % 8);
  }

  /** Setting a clear field of attribute bits `k` up to `n`. */
  lemma SetLow(pa: nat, low: nat, n: nat, k: nat, hiBit: nat, loBit: nat, q: nat, r: nat)
    requires Fits(pa, low)
    requires k <= n && hiBit == Pow2(n) && loBit == Pow2(k)
    requires hiBit * q == PAGE_SIZE && loBit * r == PAGE_SIZE
    requires low % hiBit == low % loBit
    ensures loBit <= hiBit
    ensures Or(Word(pa, low, 0), hiBit - loBit) == Word(pa, low + hiBit - loBit, 0)
  {
    LowMod(pa, low, 0, hiBit, q);
    LowMod(pa, low, 0, loBit, r);
    OrField(Word(pa, low, 0), n, k);
  }

  lemma SetValid(pa: nat, low: nat)
    requires Fits(pa, low) && low % 2 == 0
    ensures Or(Word(pa, low, 0), D_VALID) == Word(pa, low + D_VALID, 0)
  {
    Powers();
    SetLow(pa, low, 1, 0, 2, 1, 0x800, 0x1000);
  }

  lemma SetTable(pa: nat, low: nat)
    requires Fits(pa, low) && low % 4 < 2
    ensures Or(Word(pa, low, 0), D_TABLE) == Word(pa, low + D_TABLE, 0)
  {
    Powers();
    SetLow(pa, low, 2, 1, 4, 2, 0x400, 0x800);
  }

  lemma SetAttrDevice(pa: nat, low: nat)
    requires Fits(pa, low) && low % 0x10 < 8
    ensures Or(Word(pa, low, 0), D_ATTR_DEVICE) == Word(pa, low + D_ATTR_DEVICE, 0)
  {
    Powers();
    assert Pow2(4) == 0x10;
    SetLow(pa, low, 4, 3, 0x10, 8, 0x100, 0x200);
  }

  lemma SetUser(pa: nat, low: nat)
    requires Fits(pa, low) && low % 0x80 < 0x40
    ensures Or(Word(pa, low, 0), D_AP_RW_EL0) == Word(pa, low + D_AP_RW_EL0, 0)
  {
    Powers();
    assert Pow2(7) == 0x80;
    SetLow(pa, low, 7, 6, 0x80, 0x40, 0x20, 0x40);
  }

  lemma SetInner(pa: nat, low: nat)
    requires Fits(pa, low) && low % 0x400 < 0x100
    ensures Or(Word(pa, low, 0), D_SH_INNER) == Word(pa, low + D_SH_INNER, 0)
  {
    Powers();
    assert Pow2(8) == 0x100;
    SetLow(pa, low, 10, 8, 0x400, 0x100, 0x4, 0x10);
  }

  lemma SetAccess(pa: nat, low: nat)
    requires Fits(pa, low) && low % 0x800 < 0x400
    ensures Or(Word(pa, low, 0), D_AF) == Word(pa, low + D_AF, 0)
  {
    Powers();
    SetLow(pa, low, 11, 10, 0x800, 0x400, 0x2, 0x4);
  }

  lemma HighPowers()
    ensures Pow2(53) == 0x20_0000_0000_0000 && Pow2(54) == 0x40_0000_0000_0000 && Pow2(55) == 0x80_0000_0000_0000
  {
    Powers();
    assert Pow2(54) == 2 * Pow2(53);
    assert Pow2(55) == 2 * Pow2(54);
  }

  lemma SetPxn(pa: nat, low: nat)
    requires Fits(pa, low)
    ensures Or(Word(pa, low, 0), D_PXN) == Word(pa, low, 0x20)
  {
    hide Or, Pow2;
    HighPowers();
    var e := Word(pa, low, 0);
    DivModUnique(e, 0x20_0000_0000_0000, 0, e);
    DivModUnique(e, 0x40_0000_0000_0000, 0, e);
    OrField(e, 54, 53);
  }

  lemma SetUxn(pa: nat, low: nat, hi: nat)
    requires Fits(pa, low) && hi < 0x40
    ensures Or(Word(pa, low, hi), D_UXN) == Word(pa, low, hi + 0x40)
  {
    hide Or, Pow2;
    HighPowers();
    var e := Word(pa, low, hi);
    DivModUnique(e, 0x40_0000_0000_0000, 0, e);
    DivModUnique(e, 0x80_0000_0000_0000, 0, e);
    OrField(e, 55, 54);
  }

  lemma ZeroInvalid()
    ensures !IsValid(0) && !IsTable(0)
  {
  }

  lemma TableDescIs(pa: nat)
    requires Fits(pa, 0)
    ensures TableDesc(pa) == Word(pa, 3, 0)
  {
    SetValid(pa, 0);
    SetTable(pa, 1);
  }

  lemma PageDescIs(pa: nat)
    requires Fits(pa, 0)
    ensures PageDesc(pa) == Word(pa, 0x743, 0)
  {
    var a := And(pa, D_PA_MASK);
    assert a == Word(pa, 0, 0) by { PaOfWord(pa, 0, 0); }
    var b := Or(a, D_VALID);
    assert b == Word(pa, 1, 0) by { SetValid(pa, 0); }
    var c := Or(b, D_TABLE);
    assert c == Word(pa, 3, 0) by { SetTable(pa, 1); }
    var d := Or(c, D_AP_RW_EL0);
    assert d == Word(pa, 0x43, 0) by { SetUser(pa, 3); }
    var e := Or(d, D_SH_INNER);
    assert e == Word(pa, 0x343, 0) by { SetInner(pa, 0x43); }
    SetAccess(pa, 0x343);
  }

  lemma NormalBlockIs(pa: nat)
    requires Fits(pa, 0)
    ensures NormalBlock(pa) == Word(pa, 0x701, 0x40)
  {
    hide Or;
    SetValid(pa, 0);
    SetInner(pa, 1);
    SetAccess(pa, 0x301);
    SetUxn(pa, 0x701, 0);
  }

  lemma DeviceBlockIs(pa: nat)
    requires Fits(pa, 0)
    ensures DeviceBlock(pa) == Word(pa, 0x409, 0x60)
  {
    hide Or;
    SetValid(pa, 0);
    SetAttrDevice(pa, 1);
    SetAccess(pa, 9);
    SetPxn(pa, 0x409);
    SetUxn(pa, 0x409, 0x20);
  }

  lemma Decode(pa: nat, low: nat, hi: nat)
    requires Fits(pa, low)
    ensures var e := Word(pa, low, hi);
            && PaOf(e) == pa
            && (IsValid(e) <==> low % 2 == 1)
            && (IsTable(e) <==> low % 4 == 3)
            && (UserAccess(e) <==> low % 0x80 >= 0x40)
            && (IsDevice(e) <==> (low / 4) % 8 == 2)
  {
    PaOfWord(pa, low, hi);
    ValidWord(pa, low, hi);
    TableWord(pa, low, hi);
    UserWord(pa, low, hi);
    DeviceWord(pa, low, hi);
  }

  /** A table descriptor is recognised and gives back exactly its table. */
  lemma TableDescRoundTrip(pa: nat)
    requires Fits(pa, 0)
    ensures IsTable(TableDesc(pa)) && IsValid(TableDesc(pa)) && PaOf(TableDesc(pa)) == pa
  {
    hide And, Or;
    var e := TableDesc(pa);
    assert e == Word(pa, 3, 0) by { TableDescIs(pa); }
    Decode(pa, 3, 0);
  }

  /** A page descriptor is a valid level-3 entry, open to EL0, and gives back its frame. */
  lemma PageDescRoundTrip(pa: nat)
    requires Fits(pa, 0)
    ensures IsValid(PageDesc(pa)) && IsTable(PageDesc(pa)) && PaOf(PageDesc(pa)) == pa
    ensures UserAccess(PageDesc(pa)) && !IsDevice(PageDesc(pa))
  {
    hide And, Or;
    var e := PageDesc(pa);
    assert e == Word(pa, 0x743, 0) by { PageDescIs(pa); }
    Decode(pa, 0x743, 0);
  }

  /** Block descriptors are valid, are never taken for a table, and keep their base. */
  lemma NormalBlockRoundTrip(pa: nat)
    requires Fits(pa, 0)
    ensures IsValid(NormalBlock(pa)) && !IsTable(NormalBlock(pa)) && PaOf(NormalBlock(pa)) == pa
    ensures !IsDevice(NormalBlock(pa)) && !UserAccess(NormalBlock(pa))
  {
    hide And, Or;
    var e := NormalBlock(pa);
    assert e == Word(pa, 0x701, 0x40) by { NormalBlockIs(pa); }
    Decode(pa, 0x701, 0x40);
  }

  lemma DeviceBlockRoundTrip(pa: nat)
    requires Fits(pa, 0)
    ensures IsValid(DeviceBlock(pa)) && !IsTable(DeviceBlock(pa)) && PaOf(DeviceBlock(pa)) == pa
    ensures IsDevice(DeviceBlock(pa)) && !UserAccess(DeviceBlock(pa))
  {
    hide And, Or;
    var e := DeviceBlock(pa);
    assert e == Word(pa, 0x409, 0x60) by { DeviceBlockIs(pa); }
    Decode(pa, 0x409, 0x60);
  }

  // ---- every attribute field ----

  /** The attribute fields of a descriptor: memory type index, non-secure, access permissions,
      shareability, access flag, not-global, and the two execute-never bits. */
  datatype Attrs = Attrs(attr: nat, ns: nat, ap: nat, sh: nat, af: nat, ng: nat, pxn: nat, uxn: nat)

  function AttrsOf(e: nat): Attrs {
    Attrs(e / 4 % 8, e / 0x20 % 2, e / 0x40 % 4, e / 0x100 % 4, e / 0x400 % 2, e / 0x800 % 2,
          e / 0x20_0000_0000_0000 % 2, e / 0x40_0000_0000_0000 % 2)
  }

  lemma LowDiv(pa: nat, low: nat, hi: nat, d: nat, k: nat, c: nat)
    requires Fits(pa, low) && d >= 1 && k >= 1 && d * k * c == PAGE_SIZE
    ensures Word(pa, low, hi) / d % k == low / d % k
  {
    var m := pa / PAGE_SIZE;
    var z := m + hi * 0x10_0000_0000;
    assert Word(pa, low, hi) == PAGE_SIZE * z + low;
    var q, r := low / d, low % d;
    DivMod(low, d);
    assert d * k * c * z == d * (k * (c * z)) by {
      assert d * k * c * z == d * k * (c * z);
      assert d * k * (c * z) == d * (k * (c * z));
    }
    assert d * (k * (c * z)) + d * q == d * (k * (c * z) + q);
    DivModUnique(Word(pa, low, hi), d, k * (c * z) + q, r);
    DivMod(q, k);
    assert k * (c * z) + k * (q / k) == k * (c * z + q / k);
    DivModUnique(k * (c * z) + q, k, c * z + q / k, q % k);
  }

  lemma HighDiv(pa: nat, low: nat, hi: nat)
    requires Fits(pa, low)
    ensures Word(pa, low, hi) / 0x20_0000_0000_0000 == hi / 0x20 && Word(pa, low, hi) / 0x40_0000_0000_0000 == hi / 0x40
  {
    var x := pa + low;
    assert x < PHYS_LIMIT by { DivMod(pa, PAGE_SIZE); }
    DivModUnique(Word(pa, low, hi), 0x20_0000_0000_0000, hi / 0x20, hi % 0x20 * PHYS_LIMIT + x);
    DivModUnique(Word(pa, low, hi), 0x40_0000_0000_0000, hi / 0x40, hi % 0x40 * PHYS_LIMIT + x);
  }

  lemma AttrsWord(pa: nat, low: nat, hi: nat)
    requires Fits(pa, low)
    ensures AttrsOf(Word(pa, low, hi)) ==
            Attrs(low / 4 % 8, low / 0x20 % 2, low / 0x40 % 4, low / 0x100 % 4, low / 0x400 % 2, low / 0x800 % 2,
                  hi / 0x20 % 2, hi / 0x40 % 2)
  {
    hide Word;
    LowDiv(pa, low, hi, 4, 8, 0x80);
    LowDiv(pa, low, hi, 0x20, 2, 0x40);
    LowDiv(pa, low, hi, 0x40, 4, 0x10);
    LowDiv(pa, low, hi, 0x100, 4, 4);
    LowDiv(pa, low, hi, 0x400, 2, 2);
    LowDiv(pa, low, hi, 0x800, 2, 1);
    HighDiv(pa, low, hi);
  }

  /** A user page: Normal, read-write for both levels, inner shareable, accessed, executable. */
  lemma PageAttrs(pa: nat)
    requires Fits(pa, 0)
    ensures AttrsOf(PageDesc(pa)) == Attrs(attr := 0, ns := 0, ap := 1, sh := 3, af := 1, ng := 0, pxn := 0, uxn := 0)
  {
    hide PageDesc, AttrsOf, Word;
    PageDescIs(pa);
    AttrsWord(pa, 0x743, 0);
  }

  /** A Normal block: kernel only, inner shareable, accessed, not executable at EL0. */
  lemma NormalAttrs(pa: nat)
    requires Fits(pa, 0)
    ensures AttrsOf(NormalBlock(pa)) ==
            Attrs(attr := 0, ns := 0, ap := 0, sh := 3, af := 1, ng := 0, pxn := 0, uxn := 1)
  {
    hide NormalBlock, AttrsOf, Word;
    NormalBlockIs(pa);
    AttrsWord(pa, 0x701, 0x40);
  }

  /** A Device block: kernel only, accessed, never executable. */
  lemma DeviceAttrs(pa: nat)
    requires Fits(pa, 0)
    ensures AttrsOf(DeviceBlock(pa)) ==
            Attrs(attr := 2, ns := 0, ap := 0, sh := 0, af := 1, ng := 0, pxn := 1, uxn := 1)
  {
    hide DeviceBlock, AttrsOf, Word;
    DeviceBlockIs(pa);
    AttrsWord(pa, 0x409, 0x60);
  }
}
