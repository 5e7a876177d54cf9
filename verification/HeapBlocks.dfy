/** The libc heap seen as its list of blocks.  Page rounding of the break leaves gaps, so
    a block only ends at or before the next header, and freeing may merge two blocks
    across such a gap; the layout below is what survives. */
module HeapBlocks {
  import Bits

  const HDR: nat := 24
  const PAGE: nat := 0x1000
  const WORD_LIMIT: nat := 0x1_0000_0000_0000_0000
  const HEAP_BASE: nat := 0x2120_0000
  const HEAP_TOP: nat := 0x2160_0000

  /** A header at `addr` followed by `size` payload bytes. */
  datatype Block = Block(addr: nat, size: nat, free: bool) {
    function Payload(): nat { addr + HDR }
    function End(): nat { addr + HDR + size }
  }

  type Blocks = seq<Block>

  /** size_t rounding, with the wrap of 64-bit arithmetic. */
  function Round8(size: nat): nat { (size + 7) % WORD_LIMIT / 8 * 8 }

  function RoundPage(n: nat): nat { (n + 0xfff) % WORD_LIMIT / PAGE * PAGE }

  predicate Aligned(x: nat) { x % 8 == 0 }

  lemma AlignedSum(x: nat, y: nat)
    requires Aligned(x) && Aligned(y)
    ensures Aligned(x + y) && (x >= y ==> Aligned(x - y))
  {
    var m, n := x / 8, y / 8;
    Bits.DivModUnique(x + y, 8, m + n, 0);
    if x >= y { Bits.DivModUnique(x - y, 8, m - n, 0); }
  }

  /** Rounding up to a multiple of `d`. */
  lemma RoundUp(x: nat, d: nat)
    requires d >= 1
    ensures var u := (x + d - 1) / d * d; x <= u < x + d && u % d == 0
  {
    var k := (x + d - 1) / d;
    Bits.DivMod(x + d - 1, d);
    assert k * d == d * k;
    Bits.DivModUnique(k * d, d, k, 0);
  }

  /** A multiple of `d` is the least one that a rounding of something no larger can reach. */
  lemma RoundUpBelow(x: nat, d: nat, top: nat)
    requires d >= 1 && x <= top && top % d == 0
    ensures (x + d - 1) / d * d <= top
  {
    var k, t := (x + d - 1) / d, top / d;
    Bits.DivMod(x + d - 1, d);
    Bits.DivMod(top, d);
    assert d * (k - t) == d * k - d * t < d;
    LessThanOne(d, k - t);
    assert d * (t - k) == d * t - d * k;
  }

  lemma LessThanOne(d: nat, x: int)
    requires d >= 1 && d * x < d
    ensures x <= 0
  {
  }

  predicate PageAligned(x: nat) { x % PAGE == 0 }

  lemma PageSum(x: nat, y: nat)
    requires PageAligned(x) && PageAligned(y)
    ensures PageAligned(x + y) && Aligned(x)
  {
    var m, n := x / PAGE, y / PAGE;
    Bits.DivModUnique(x, 8, 512 * m, 0);
    Bits.DivModUnique(x + y, PAGE, m + n, 0);
  }

  lemma AlignedHdr()
    ensures Aligned(HDR)
  {
  }

  // ---- layout ----

  ghost predicate BlockOk(b: Block, limit: nat) {
    && HEAP_BASE <= b.addr && Aligned(b.addr)
    && 8 <= b.size && Aligned(b.size)
    && b.End() <= limit
  }

  /** Where block `i` must have ended: the next header, or the break. */
  ghost function Limit(bs: Blocks, brk: nat, i: nat): nat
    requires i < |bs|
  {
    if i + 1 < |bs| then bs[i + 1].addr else brk
  }

  ghost predicate Good(bs: Blocks, brk: nat, i: nat)
    requires i < |bs|
  {
    BlockOk(bs[i], Limit(bs, brk, i))
  }

  ghost predicate Layout(bs: Blocks, brk: nat) {
    && HEAP_BASE <= brk <= HEAP_TOP && PageAligned(brk)
    && forall i :: 0 <= i < |bs| ==> Good(bs, brk, i)
  }

  /** Blocks are in address order and do not overlap. */
  lemma {:induction false} Ordered(bs: Blocks, brk: nat, i: nat, j: nat)
    requires Layout(bs, brk) && i < j < |bs|
    ensures bs[i].End() <= bs[j].addr
    decreases j - i
  {
    assert Good(bs, brk, i);
    if i + 1 < j {
      Ordered(bs, brk, i + 1, j);
      assert Good(bs, brk, i + 1);
    }
  }

  lemma BelowBreak(bs: Blocks, brk: nat, i: nat)
    requires Layout(bs, brk) && i < |bs|
    ensures HEAP_BASE <= bs[i].addr && bs[i].End() <= brk && Aligned(bs[i].addr) && Aligned(bs[i].size) &&
              8 <= bs[i].size
  {
    assert Good(bs, brk, i);
    if i + 1 < |bs| {
      Ordered(bs, brk, i, |bs| - 1);
      assert Good(bs, brk, |bs| - 1);
    }
  }

  /** Live payloads are pairwise disjoint, 8-aligned and inside the heap. */
  lemma LivePayloads(bs: Blocks, brk: nat, i: nat, j: nat)
    requires Layout(bs, brk) && i < |bs| && j < |bs| && i != j
    ensures Aligned(bs[i].Payload()) && HEAP_BASE < bs[i].Payload() && bs[i].End() <= brk
    ensures bs[i].End() <= bs[j].addr || bs[j].End() <= bs[i].addr
  {
    hide Aligned;
    AlignedHdr();
    BelowBreak(bs, brk, i);
    AlignedSum(bs[i].addr, HDR);
    if i < j { Ordered(bs, brk, i, j); } else { Ordered(bs, brk, j, i); }
  }

  // ---- malloc ----

  /** Index of the first free block of at least `size` bytes, from `i` on. */
  function FirstFit(bs: Blocks, size: nat, i: nat): (k: nat)
    requires i <= |bs|
    ensures i <= k <= |bs|
    ensures k < |bs| ==> bs[k].free && bs[k].size >= size
    ensures forall m :: i <= m < k ==> !(bs[m].free && bs[m].size >= size)
    decreases |bs| - i
  {
    if i == |bs| then i
    else if bs[i].free && bs[i].size >= size then i
    else FirstFit(bs, size, i + 1)
  }

  /** Takes free block `k` for `size` bytes, splitting off the rest when it can hold a
      header and 8 bytes. */
  function Take(bs: Blocks, k: nat, size: nat): Blocks
    requires k < |bs| && size <= bs[k].size
  {
    var b := bs[k];
    if b.size >= size + HDR + 8 then
      bs[..k] + [Block(b.addr, size, false), Block(b.addr + HDR + size, b.size - size - HDR, true)] + bs[k + 1..]
    else bs[k := b.(free := false)]
  }

  /** What the kernel's brk says to a request for `n` more bytes: it refuses past the
      heap window, and may refuse for lack of pages (`grant` false). */
  function Break(brk: nat, n: nat, grant: bool): nat {
    var addr := (brk + n) % WORD_LIMIT;
    if grant && HEAP_BASE <= addr <= HEAP_TOP then addr else brk
  }

  datatype Outcome = Outcome(bs: Blocks, brk: nat, ptr: nat)

  /** malloc on the block list; `ptr` 0 is failure. */
  function Malloc(bs: Blocks, brk: nat, size: nat, grant: bool): Outcome {
    var r := Round8(size);
    var k := FirstFit(bs, r, 0);
    if size == 0 then Outcome(bs, brk, 0)
    else if k < |bs| then Outcome(Take(bs, k, r), brk, bs[k].Payload())
    else
      var brk' := Break(brk, RoundPage((r + HDR) % WORD_LIMIT), grant);
      if brk' == brk then Outcome(bs, brk, 0)
      else Outcome(bs + [Block(brk, r, false)], brk', brk + HDR)
  }

  // ---- free ----

  /** Marks block `i` free and swallows the next block if that is free too, wherever
      its header lies. */
  function Release(bs: Blocks, i: nat): Blocks
    requires i < |bs|
  {
    var b := bs[i];
    if i + 1 < |bs| && bs[i + 1].free then
      bs[..i] + [Block(b.addr, b.size + HDR + bs[i + 1].size, true)] + bs[i + 2..]
    else bs[i := b.(free := true)]
  }

  ghost predicate LiveAt(bs: Blocks, i: nat, ptr: nat) {
    i < |bs| && !bs[i].free && bs[i].Payload() == ptr
  }

  // ---- layout is kept ----

  /** The sizes malloc serves correctly: those whose growth cannot wrap past the heap
      window, and a band near the top of the range whose page rounding wraps to nothing, so
      that malloc refuses. */
  predicate Served(size: nat) {
    size <= WORD_LIMIT - 0x40_1018 || WORD_LIMIT - 0x1018 < size <= WORD_LIMIT - HDR
  }

  lemma RoundFacts(size: nat)
    requires Served(size)
    ensures Aligned(Round8(size)) && size <= Round8(size) < size + 8 && Round8(size) <= WORD_LIMIT - HDR
    ensures var r, n := Round8(size), RoundPage((Round8(size) + HDR) % WORD_LIMIT);
            n == 0 || (PageAligned(n) && r + HDR <= n <= WORD_LIMIT - 0x40_1000)
  {
    if size <= WORD_LIMIT - 0x40_1018 {
      LowBand(size);
    } else {
      HighBand(size);
    }
  }

  /** Rounding that does not wrap. */
  lemma Round8Facts(size: nat, top: nat)
    requires size <= top <= WORD_LIMIT - 8 && top % 8 == 0
    ensures Aligned(Round8(size)) && size <= Round8(size) < size + 8 && Round8(size) <= top
  {
    Bits.DivModUnique(size + 7, WORD_LIMIT, 0, size + 7);
    RoundUp(size, 8);
    RoundUpBelow(size, 8, top);
  }

  lemma RoundPageFacts(x: nat, top: nat)
    requires x <= top <= WORD_LIMIT - PAGE && top % PAGE == 0
    ensures var n := RoundPage(x % WORD_LIMIT);
            PageAligned(n) && x <= n < x + PAGE && n <= top
  {
    Bits.DivModUnique(x, WORD_LIMIT, 0, x);
    Bits.DivModUnique(x + 0xfff, WORD_LIMIT, 0, x + 0xfff);
    RoundUp(x, PAGE);
    RoundUpBelow(x, PAGE, top);
  }

  /** Page rounding that wraps. */
  lemma RoundPageWraps(x: nat)
    requires WORD_LIMIT - PAGE < x <= WORD_LIMIT
    ensures RoundPage(x % WORD_LIMIT) == 0
  {
    if x == WORD_LIMIT {
      Bits.DivModUnique(x, WORD_LIMIT, 1, 0);
    } else {
      Bits.DivModUnique(x, WORD_LIMIT, 0, x);
      Bits.DivModUnique(x + 0xfff, WORD_LIMIT, 1, x + 0xfff - WORD_LIMIT);
      Bits.DivModUnique(x + 0xfff - WORD_LIMIT, PAGE, 0, x + 0xfff - WORD_LIMIT);
    }
  }

  lemma LowBand(size: nat)
    requires size <= WORD_LIMIT - 0x40_1018
    ensures Aligned(Round8(size)) && size <= Round8(size) < size + 8 && Round8(size) <= WORD_LIMIT - 0x40_1018
    ensures var r, n := Round8(size), RoundPage((Round8(size) + HDR) % WORD_LIMIT);
            PageAligned(n) && r + HDR <= n <= WORD_LIMIT - 0x40_1000
  {
    hide Round8, RoundPage;
    Round8Facts(size, WORD_LIMIT - 0x40_1018);
    RoundPageFacts(Round8(size) + HDR, WORD_LIMIT - 0x40_1000);
  }

  lemma HighBand(size: nat)
    requires WORD_LIMIT - 0x1018 < size <= WORD_LIMIT - HDR
    ensures Aligned(Round8(size)) && size <= Round8(size) < size + 8 && Round8(size) <= WORD_LIMIT - HDR
    ensures RoundPage((Round8(size) + HDR) % WORD_LIMIT) == 0
  {
    hide Round8, RoundPage;
    Round8Facts(size, WORD_LIMIT - HDR);
    RoundPageWraps(Round8(size) + HDR);
  }

  /** Page rounding of a request that stays below the limit reaches the heap or is refused. */
  lemma BreakFacts(brk: nat, n: nat, grant: bool)
    requires HEAP_BASE <= brk <= HEAP_TOP && n <= WORD_LIMIT - 0x40_1000
    ensures Break(brk, n, grant) == brk || Break(brk, n, grant) == brk + n <= HEAP_TOP
  {
  }

  lemma TakeKeeps(bs: Blocks, brk: nat, k: nat, size: nat)
    requires Layout(bs, brk) && k < |bs| && 8 <= size <= bs[k].size && Aligned(size)
    ensures Layout(Take(bs, k, size), brk)
  {
    hide Aligned;
    var bs' := Take(bs, k, size);
    BelowBreak(bs, brk, k);
    AlignedHdr();
    AlignedSum(size, HDR);
    AlignedSum(bs[k].addr, HDR + size);
    if bs[k].size >= size + HDR { AlignedSum(bs[k].size, size + HDR); }
    forall i | 0 <= i < |bs'| ensures Good(bs', brk, i) {
      if i < k {
        assert Good(bs, brk, i);
      } else if |bs'| == |bs| {
        assert Good(bs, brk, i);
      } else if i >= k + 2 {
        assert bs'[i] == bs[i - 1];
        assert Good(bs, brk, i - 1);
      } else {
        assert Good(bs, brk, k);
      }
    }
  }

  lemma GrowKeeps(bs: Blocks, brk: nat, r: nat, n: nat)
    requires Layout(bs, brk) && 8 <= r && Aligned(r) && r + HDR <= n && PageAligned(n) && brk + n <= HEAP_TOP
    ensures Layout(bs + [Block(brk, r, false)], brk + n)
  {
    var bs' := bs + [Block(brk, r, false)];
    hide Aligned, PageAligned;
    PageSum(brk, n);
    var brk' := brk + n;
    forall i | 0 <= i < |bs'| ensures Good(bs', brk', i) {
      if i < |bs| { assert Good(bs, brk, i); }
    }
  }

  lemma MallocKeeps(bs: Blocks, brk: nat, size: nat, grant: bool)
    requires Layout(bs, brk) && Served(size)
    ensures var o := Malloc(bs, brk, size, grant); Layout(o.bs, o.brk) && brk <= o.brk
  {
    RoundFacts(size);
    var r := Round8(size);
    if size != 0 {
      assert 8 <= r;
      var k := FirstFit(bs, r, 0);
      if k < |bs| {
        TakeKeeps(bs, brk, k, r);
      } else {
        var n := RoundPage((r + HDR) % WORD_LIMIT);
        var brk' := Break(brk, n, grant);
        if n > 0 { BreakFacts(brk, n, grant); }
        if brk' != brk {
          GrowKeeps(bs, brk, r, n);
        }
      }
    }
  }

  // ---- which sizes malloc serves ----

  /** What a caller of malloc relies on: the heap stays laid out, the break does not drop,
      and a pointer that is not null heads a live block of the requested size. */
  ghost predicate Serves(bs: Blocks, brk: nat, size: nat, grant: bool) {
    var o := Malloc(bs, brk, size, grant);
    && Layout(o.bs, o.brk) && brk <= o.brk
    && (o.ptr == 0 || exists b :: Live(o.bs, b) && b.Payload() == o.ptr && size <= b.size)
  }

  /** malloc serves a size in every heap state exactly when `Served` says so. */
  lemma ServedIff(size: nat)
    requires size < WORD_LIMIT
    ensures (forall bs, brk, grant :: Layout(bs, brk) ==> Serves(bs, brk, size, grant)) <==> Served(size)
  {
    hide Layout, Serves;
    if Served(size) {
      forall bs, brk, grant | Layout(bs, brk) ensures Serves(bs, brk, size, grant) {
        ServedServes(bs, brk, size, grant);
      }
    } else {
      var bs, brk := UnservedFails(size);
      assert !Serves(bs, brk, size, true);
    }
  }

  lemma ServedServes(bs: Blocks, brk: nat, size: nat, grant: bool)
    requires Layout(bs, brk) && Served(size)
    ensures Serves(bs, brk, size, grant)
  {
    hide Layout, Malloc, Served;
    MallocKeeps(bs, brk, size, grant);
    var nb := MallocAddsOne(bs, brk, size, grant);
    if Malloc(bs, brk, size, grant).ptr != 0 {
      assert Live(Malloc(bs, brk, size, grant).bs, nb);
    }
  }

  /** In the upper band the page rounding wraps to nothing and malloc refuses. */
  lemma HugeRefused(bs: Blocks, brk: nat, size: nat, grant: bool)
    requires Layout(bs, brk) && WORD_LIMIT - 0x1018 < size <= WORD_LIMIT - HDR
    ensures Malloc(bs, brk, size, grant) == Outcome(bs, brk, 0)
  {
    hide Layout, Round8, RoundPage;
    var r := Round8(size);
    HighBand(size);
    var k := FirstFit(bs, r, 0);
    if k < |bs| {
      BelowBreak(bs, brk, k);
      BreakRange(bs, brk);
    } else {
      BreakRange(bs, brk);
    }
  }

  lemma BreakRange(bs: Blocks, brk: nat)
    requires Layout(bs, brk)
    ensures HEAP_BASE <= brk <= HEAP_TOP
  {
  }

  const FULL := [Block(HEAP_BASE, 0x3f_ffe8, false)]

  /** One allocation fills the whole heap window. */
  lemma FullHeap()
    ensures Malloc([], HEAP_BASE, 0x3f_ffe8, true) == Outcome(FULL, HEAP_TOP, HEAP_BASE + HDR)
    ensures Layout([], HEAP_BASE) && Layout(FULL, HEAP_TOP)
  {
    assert FirstFit([], 0x3f_ffe8, 0) == 0;
    assert Good(FULL, HEAP_TOP, 0);
  }

  /** An unserved size fails on a fresh heap, or after one allocation that fills it. */
  lemma UnservedFails(size: nat) returns (bs: Blocks, brk: nat)
    requires size < WORD_LIMIT && !Served(size)
    ensures (bs == [] && brk == HEAP_BASE) || (bs == FULL && brk == HEAP_TOP)
    ensures Layout(bs, brk) && !Serves(bs, brk, size, true)
  {
    FullHeap();
    if size <= WORD_LIMIT - 0x1018 {
      bs, brk := FULL, HEAP_TOP;
      BreakDrops(size);
    } else {
      bs, brk := [], HEAP_BASE;
      TooSmall(size);
    }
  }

  /** Just above the first limit the break moves down, under the live block. */
  lemma BreakDrops(size: nat)
    requires WORD_LIMIT - 0x40_1018 < size <= WORD_LIMIT - 0x1018
    ensures var o := Malloc(FULL, HEAP_TOP, size, true); o.brk < HEAP_TOP && o.ptr == HEAP_TOP + HDR
  {
    hide Round8, RoundPage;
    var r := Round8(size);
    MiddleBand(size);
    assert FirstFit(FULL, r, 0) == 1;
  }

  lemma MiddleBand(size: nat)
    requires WORD_LIMIT - 0x40_1018 < size <= WORD_LIMIT - 0x1018
    ensures Round8(size) > WORD_LIMIT - 0x40_1018
    ensures WORD_LIMIT - 0x40_0000 <= RoundPage((Round8(size) + HDR) % WORD_LIMIT) <= WORD_LIMIT - 0x1000
  {
    hide Round8, RoundPage;
    Round8Facts(size, WORD_LIMIT - 0x1018);
    var x := Round8(size) + HDR;
    RoundPageFacts(x, WORD_LIMIT - 0x1000);
    PageAbove(RoundPage(x % WORD_LIMIT));
  }

  lemma PageAbove(n: nat)
    requires n % PAGE == 0 && n > WORD_LIMIT - 0x40_1000
    ensures n >= WORD_LIMIT - 0x40_0000
  {
    var m := n / PAGE;
    Bits.DivMod(n, PAGE);
  }

  /** At the very top the header sum or the rounding wraps: one page for a huge block, or a
      block of no bytes. */
  lemma TooSmall(size: nat)
    requires WORD_LIMIT - HDR < size < WORD_LIMIT
    ensures var o := Malloc([], HEAP_BASE, size, true);
            o.ptr == HEAP_BASE + HDR && o.brk == HEAP_BASE + PAGE && !Layout(o.bs, o.brk)
  {
    hide Round8, RoundPage;
    var r := Round8(size);
    var o := Malloc([], HEAP_BASE, size, true);
    assert FirstFit([], r, 0) == 0;
    TopBand(size);
    assert o.bs == [Block(HEAP_BASE, r, false)];
    assert !Good(o.bs, o.brk, 0);
  }

  lemma TopBand(size: nat)
    requires WORD_LIMIT - HDR < size < WORD_LIMIT
    ensures Round8(size) == 0 || Round8(size) == WORD_LIMIT - 16 || Round8(size) == WORD_LIMIT - 8
    ensures RoundPage((Round8(size) + HDR) % WORD_LIMIT) == PAGE
  {
    TopRound(size);
    hide Round8;
    var r := Round8(size);
    var x := if r == 0 then HDR else r + HDR - WORD_LIMIT;
    Bits.DivModUnique(r + HDR, WORD_LIMIT, if r == 0 then 0 else 1, x);
    SmallPage(x);
  }

  lemma TopRound(size: nat)
    requires WORD_LIMIT - HDR < size < WORD_LIMIT
    ensures Round8(size) == 0 || Round8(size) == WORD_LIMIT - 16 || Round8(size) == WORD_LIMIT - 8
  {
    if size <= WORD_LIMIT - 8 {
      var q := if size <= WORD_LIMIT - 16 then 0x1FFF_FFFF_FFFF_FFFE else 0x1FFF_FFFF_FFFF_FFFF;
      Bits.DivModUnique(size + 7, WORD_LIMIT, 0, size + 7);
      Bits.DivModUnique(size + 7, 8, q, size + 7 - 8 * q);
    } else {
      Bits.DivModUnique(size + 7, WORD_LIMIT, 1, size + 7 - WORD_LIMIT);
      Bits.DivModUnique(size + 7 - WORD_LIMIT, 8, 0, size + 7 - WORD_LIMIT);
    }
  }

  lemma SmallPage(x: nat)
    requires 0 < x <= PAGE
    ensures RoundPage(x) == PAGE
  {
    Bits.DivModUnique(x + 0xfff, WORD_LIMIT, 0, x + 0xfff);
    Bits.DivModUnique(x + 0xfff, PAGE, 1, x - 1);
  }

  /** Two such sizes: one gets a single page for 2^64 - 16 bytes. */
  lemma TooSmallCase()
    ensures var o := Malloc([], HEAP_BASE, WORD_LIMIT - 16, true);
            o.ptr != 0 && o.bs == [Block(HEAP_BASE, WORD_LIMIT - 16, false)] && o.brk == HEAP_BASE + PAGE
  {
    assert FirstFit([], WORD_LIMIT - 16, 0) == 0;
  }

  /** A first small block takes one page. */
  lemma SmallFirst()
    ensures Malloc([], HEAP_BASE, 8, true) == Outcome([Block(HEAP_BASE, 8, false)], HEAP_BASE + PAGE, HEAP_BASE + HDR)
  {
    assert FirstFit([], 8, 0) == 0;
  }

  /** The other pulls the break back over a live block. */
  lemma BreakDropsCase()
    ensures var a := Malloc([], HEAP_BASE, 8, true);
            var o := Malloc(a.bs, a.brk, WORD_LIMIT - 8192, true);
            a.bs == [Block(HEAP_BASE, 8, false)] && a.brk == HEAP_BASE + PAGE && o.ptr != 0 && o.brk == HEAP_BASE
  {
    SmallFirst();
    SecondHuge([Block(HEAP_BASE, 8, false)]);
  }

  lemma SecondHuge(bs: Blocks)
    requires bs == [Block(HEAP_BASE, 8, false)]
    ensures var o := Malloc(bs, HEAP_BASE + PAGE, WORD_LIMIT - 8192, true); o.ptr != 0 && o.brk == HEAP_BASE
  {
    assert Round8(WORD_LIMIT - 8192) == WORD_LIMIT - 8192;
    assert RoundPage(WORD_LIMIT - 8192 + HDR) == WORD_LIMIT - 4096;
    assert FirstFit(bs, WORD_LIMIT - 8192, 0) == 1;
  }

  lemma ReleaseKeeps(bs: Blocks, brk: nat, i: nat)
    requires Layout(bs, brk) && i < |bs|
    ensures Layout(Release(bs, i), brk)
  {
    hide Aligned;
    var bs' := Release(bs, i);
    AlignedHdr();
    BelowBreak(bs, brk, i);
    if i + 1 < |bs| {
      BelowBreak(bs, brk, i + 1);
      AlignedSum(bs[i].size, HDR);
      AlignedSum(bs[i].size + HDR, bs[i + 1].size);
    }
    forall k | 0 <= k < |bs'| ensures Good(bs', brk, k) {
      if k < i || |bs'| == |bs| {
        assert Good(bs, brk, k);
      } else if k == i {
        assert Good(bs, brk, i);
        assert Good(bs, brk, i + 1);
      } else {
        assert bs'[k] == bs[k + 1];
        assert Good(bs, brk, k + 1);
      }
    }
  }

  /** Merging recovers the whole of both blocks exactly when they are adjacent.  Across a
      page-rounding gap the merged block stops short, by the size of the gap. */
  lemma MergeExactIff(bs: Blocks, brk: nat, i: nat)
    requires Layout(bs, brk) && i + 1 < |bs| && bs[i + 1].free
    ensures var gap := bs[i + 1].addr - bs[i].End();
            && gap >= 0 && Release(bs, i)[i].End() == bs[i + 1].End() - gap
            && (Release(bs, i)[i].End() == bs[i + 1].End() <==> bs[i].End() == bs[i + 1].addr)
  {
    assert Good(bs, brk, i);
  }

  /** Such a gap does arise: two small allocations that each grew the break, both freed. */
  lemma MergeAcrossGap()
    ensures var a := Malloc([], HEAP_BASE, 8, true);
            && Layout([], HEAP_BASE) && a.bs == [Block(HEAP_BASE, 8, false)] && a.brk == HEAP_BASE + PAGE
            && var c := Malloc(a.bs, a.brk, 8, true);
               && c.bs == [Block(HEAP_BASE, 8, false), Block(HEAP_BASE + PAGE, 8, false)]
               && Release(Release(c.bs, 1), 0) == [Block(HEAP_BASE, 40, true)]
  {
    var a := Malloc([], HEAP_BASE, 8, true);
    assert FirstFit(a.bs, 8, 0) == 1;
  }

  // ---- the client's view: live blocks ----

  ghost predicate Live(bs: Blocks, b: Block) { b in bs && !b.free }

  /** Payload byte `x` belongs to a live block. */
  ghost predicate LiveByte(bs: Blocks, x: nat) {
    exists b :: Live(bs, b) && b.Payload() <= x < b.End()
  }

  /** A successful malloc adds one live block of at least the requested size at the
      returned pointer and changes no other; a failed one changes nothing. */
  lemma MallocAddsOne(bs: Blocks, brk: nat, size: nat, grant: bool) returns (nb: Block)
    requires Layout(bs, brk) && Served(size)
    ensures var o := Malloc(bs, brk, size, grant);
            if o.ptr == 0 then o == Outcome(bs, brk, 0)
            else
              && nb.Payload() == o.ptr && size <= nb.size && !nb.free && nb in o.bs && !Live(bs, nb)
              && forall b :: Live(o.bs, b) <==> Live(bs, b) || b == nb
  {
    var o := Malloc(bs, brk, size, grant);
    RoundFacts(size);
    var r := Round8(size);
    var k := FirstFit(bs, r, 0);
    if size == 0 || o.ptr == 0 {
      nb := Block(0, 0, true);
      if size != 0 && k < |bs| { BelowBreak(bs, brk, k); }
    } else if k < |bs| {
      nb := TakeAddsOne(bs, brk, k, r);
    } else {
      nb := Block(brk, r, false);
      forall b | b in bs ensures b != nb {
        var i :| 0 <= i < |bs| && bs[i] == b;
        BelowBreak(bs, brk, i);
      }
    }
  }

  lemma TakeAddsOne(bs: Blocks, brk: nat, k: nat, r: nat) returns (nb: Block)
    requires Layout(bs, brk) && k < |bs| && r <= bs[k].size && bs[k].free
    ensures nb.Payload() == bs[k].Payload() && r <= nb.size && !nb.free && nb in Take(bs, k, r) && !Live(bs, nb)
    ensures forall b :: Live(Take(bs, k, r), b) <==> Live(bs, b) || b == nb
  {
    var bs' := Take(bs, k, r);
    nb := bs'[k];
    forall b | Live(bs, b) ensures b != nb && b in bs' {
      var i :| 0 <= i < |bs| && bs[i] == b;
      if i < k {
        Ordered(bs, brk, i, k);
        assert bs'[i] == b;
      } else {
        Ordered(bs, brk, k, i);
        assert bs'[i + |bs'| - |bs|] == b;
      }
    }
    forall b | Live(bs', b) && b != nb ensures Live(bs, b) {
      var i :| 0 <= i < |bs'| && bs'[i] == b;
      if i < k { assert bs[i] == b; } else { assert bs[i - (|bs'| - |bs|)] == b; }
    }
  }

  /** free ends exactly one live block. */
  lemma ReleaseEndsOne(bs: Blocks, brk: nat, i: nat)
    requires Layout(bs, brk) && i < |bs| && !bs[i].free
    ensures forall b :: Live(Release(bs, i), b) <==> Live(bs, b) && b != bs[i]
  {
    var bs' := Release(bs, i);
    var gone := if i + 1 < |bs| && bs[i + 1].free then 1 else 0;
    forall b | Live(bs, b) && b != bs[i] ensures b in bs' {
      var k :| 0 <= k < |bs| && bs[k] == b;
      assert bs'[if k < i then k else k - gone] == b;
    }
    forall b | Live(bs', b) ensures Live(bs, b) && b != bs[i] {
      var k :| 0 <= k < |bs'| && bs'[k] == b;
      var m := if k < i then k else k + gone;
      assert k != i && bs[m] == b && m != i;
      if m < i { Ordered(bs, brk, m, i); } else { Ordered(bs, brk, i, m); }
    }
  }

  // ---- calloc ----

  /** A block granted for the 64-bit product of calloc's arguments holds the whole product
      exactly when the product does not wrap. */
  lemma CallocHoldsIff(bs: Blocks, brk: nat, nmemb: nat, size: nat, grant: bool) returns (nb: Block)
    requires Layout(bs, brk) && Served(nmemb * size % WORD_LIMIT)
    ensures var o := Malloc(bs, brk, nmemb * size % WORD_LIMIT, grant);
            o.ptr != 0 ==>
              && Live(o.bs, nb) && nb.Payload() == o.ptr
              && (nmemb * size <= nb.size <==> nmemb * size < WORD_LIMIT)
  {
    hide Layout, Malloc, Served;
    var product := nmemb * size;
    var total := product % WORD_LIMIT;
    nb := MallocAddsOne(bs, brk, total, grant);
    MallocKeeps(bs, brk, total, grant);
    var o := Malloc(bs, brk, total, grant);
    if o.ptr != 0 {
      var i :| 0 <= i < |o.bs| && o.bs[i] == nb;
      BelowBreak(o.bs, o.brk, i);
      BreakRange(o.bs, o.brk);
    }
  }

  /** Eight members of 2^61 + 1 bytes are granted 8 bytes. */
  lemma CallocWrapCase()
    ensures 8 * (0x2000_0000_0000_0000 + 1) % WORD_LIMIT == 8
    ensures Malloc([], HEAP_BASE, 8, true) == Outcome([Block(HEAP_BASE, 8, false)], HEAP_BASE + PAGE, HEAP_BASE + HDR)
  {
    hide Malloc;
    SmallFirst();
  }

  // ---- whole runs ----

  datatype Op = DoMalloc(size: nat, grant: bool) | DoFree(ptr: nat)

  ghost predicate Run(bs: Blocks, brk: nat, ops: seq<Op>, bs': Blocks, brk': nat)
    decreases |ops|
  {
    if ops == [] then bs' == bs && brk' == brk
    else match ops[0]
      case DoMalloc(size, grant) =>
        var o := Malloc(bs, brk, size, grant);
        Served(size) && Run(o.bs, o.brk, ops[1..], bs', brk')
      case DoFree(ptr) =>
        if ptr == 0 then Run(bs, brk, ops[1..], bs', brk')
        else exists i :: LiveAt(bs, i, ptr) && Run(Release(bs, i), brk, ops[1..], bs', brk')
  }

  /** The layout holds after every run of allocations and frees of live pointers. */
  lemma {:induction false} RunKeepsLayout(bs: Blocks, brk: nat, ops: seq<Op>, bs': Blocks, brk': nat)
    requires Layout(bs, brk) && Run(bs, brk, ops, bs', brk')
    ensures Layout(bs', brk') && brk <= brk'
    decreases |ops|
  {
    hide Layout, Malloc;
    if ops != [] {
      match ops[0]
      case DoMalloc(size, grant) =>
        var o := Malloc(bs, brk, size, grant);
        MallocKeeps(bs, brk, size, grant);
        RunKeepsLayout(o.bs, o.brk, ops[1..], bs', brk');
      case DoFree(ptr) =>
        if ptr == 0 {
          RunKeepsLayout(bs, brk, ops[1..], bs', brk');
        } else {
          var i :| LiveAt(bs, i, ptr) && Run(Release(bs, i), brk, ops[1..], bs', brk');
          ReleaseKeeps(bs, brk, i);
          RunKeepsLayout(Release(bs, i), brk, ops[1..], bs', brk');
        }
    }
  }
}
