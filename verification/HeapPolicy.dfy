/** What malloc and free promise on the block list, without their code: which block a request
    gets, when it must succeed, and that no byte ever leaves the list. */
module HeapPolicy {
  import Bits
  import opened HeapBlocks

  /** The request in whole words. */
  function Need(size: nat): nat { if size % 8 == 0 then size else size + (8 - size % 8) }

  /** A request with its header in whole pages. */
  function PagesFor(need: nat): nat {
    var x := need + 24;
    if x % 4096 == 0 then x else x + (4096 - x % 4096)
  }

  ghost predicate Roomy(b: Block, need: nat) { b.free && b.size >= need }

  /** Block `k` is the lowest free block that is large enough. */
  ghost predicate Lowest(bs: Blocks, k: nat, need: nat) {
    k < |bs| && Roomy(bs[k], need) && forall c :: c in bs && Roomy(c, need) ==> bs[k].addr <= c.addr
  }

  /** `mid` is free block `b` put to use: a live block of the size asked for at its start; of
      32 bytes or more left over a free block up to its end, and fewer go with the live block. */
  ghost predicate Carved(b: Block, need: nat, mid: Blocks) {
    && 1 <= |mid| <= 2 && mid[0].addr == b.addr && !mid[0].free && mid[|mid| - 1].End() == b.End()
    && (|mid| == 2 <==> b.size >= need + 32)
    && (|mid| == 2 ==> mid[0].size == need && mid[1].free && mid[1].addr == mid[0].End())
  }

  /** Block `k` is carved for `need` bytes and every other block stays. */
  ghost predicate Reuses(bs: Blocks, k: nat, need: nat, bs': Blocks) {
    k < |bs| && exists mid :: Carved(bs[k], need, mid) && bs' == bs[..k] + mid + bs[k + 1..]
  }

  /** What a request must lead to: null for nothing; else the lowest large enough free block,
      with the break where it is; else a block at the break, exactly when the pages are
      granted and fit the heap window; else nothing changes. */
  ghost predicate Promised(bs: Blocks, brk: nat, size: nat, grant: bool, o: Outcome) {
    var need, n := Need(size), PagesFor(Need(size));
    if size == 0 then o == Outcome(bs, brk, 0)
    else if exists b :: b in bs && Roomy(b, need) then
      exists k: nat :: Lowest(bs, k, need) && Reuses(bs, k, need, o.bs) && o.brk == brk && o.ptr == bs[k].Payload()
    else if grant && brk + n <= HEAP_TOP then
      o == Outcome(bs + [Block(brk, need, false)], brk + n, brk + 24)
    else o == Outcome(bs, brk, 0)
  }

  lemma NeedIs(size: nat)
    requires size <= WORD_LIMIT - 8
    ensures Need(size) == Round8(size)
  {
    var q, r := size / 8, size % 8;
    Bits.DivMod(size, 8);
    Bits.DivModUnique(size + 7, WORD_LIMIT, 0, size + 7);
    if r == 0 {
      Bits.DivModUnique(size + 7, 8, q, 7);
    } else {
      Bits.DivModUnique(size + 7, 8, q + 1, r - 1);
    }
  }

  lemma PagesIs(need: nat)
    requires need + 24 <= WORD_LIMIT - 4096
    ensures PagesFor(need) == RoundPage((need + HDR) % WORD_LIMIT)
  {
    var x := need + 24;
    var q, r := x / PAGE, x % PAGE;
    Bits.DivMod(x, PAGE);
    Bits.DivModUnique(x, WORD_LIMIT, 0, x);
    Bits.DivModUnique(x + 0xfff, WORD_LIMIT, 0, x + 0xfff);
    if r == 0 {
      Bits.DivModUnique(x + 0xfff, PAGE, q, 0xfff);
    } else {
      Bits.DivModUnique(x + 0xfff, PAGE, q + 1, r - 1);
    }
  }

  /** The first block of the list is the lowest one. */
  lemma FirstIsLowest(bs: Blocks, brk: nat, need: nat, k: nat)
    requires Layout(bs, brk) && k < |bs| && Roomy(bs[k], need)
    requires forall m :: 0 <= m < k ==> !Roomy(bs[m], need)
    ensures Lowest(bs, k, need)
  {
    hide Layout;
    forall c | c in bs && Roomy(c, need) ensures bs[k].addr <= c.addr {
      var i: nat :| i < |bs| && bs[i] == c;
      if i > k { Ordered(bs, brk, k, i); }
    }
  }

  lemma TakeReuses(bs: Blocks, k: nat, need: nat)
    requires k < |bs| && Roomy(bs[k], need)
    ensures Reuses(bs, k, need, Take(bs, k, need))
  {
    var b := bs[k];
    var mid := if b.size >= need + HDR + 8 then
      [Block(b.addr, need, false), Block(b.addr + HDR + need, b.size - need - HDR, true)]
    else [b.(free := false)];
    assert Carved(b, need, mid);
    assert Take(bs, k, need) == bs[..k] + mid + bs[k + 1..];
  }

  /** malloc does what is promised, in every heap state, for every size served. */
  lemma MallocMeetsPromise(bs: Blocks, brk: nat, size: nat, grant: bool)
    requires Layout(bs, brk) && Served(size)
    ensures Promised(bs, brk, size, grant, Malloc(bs, brk, size, grant))
  {
    hide Layout, Round8, RoundPage, Need, PagesFor, Take, Break;
    NeedIs(size);
    var need := Need(size);
    var k := FirstFit(bs, need, 0);
    if size != 0 {
      if k < |bs| {
        FirstIsLowest(bs, brk, need, k);
        TakeReuses(bs, k, need);
        assert bs[k] in bs;
      } else {
        GrowOutcome(bs, brk, size, grant);
      }
    }
  }

  /** The break call, for a size served. */
  lemma GrowOutcome(bs: Blocks, brk: nat, size: nat, grant: bool)
    requires Layout(bs, brk) && Served(size) && size > 0
    ensures var need := Need(size);
            var n, brk' := PagesFor(need), Break(brk, RoundPage((need + HDR) % WORD_LIMIT), grant);
            brk' == (if grant && brk + n <= HEAP_TOP then brk + n else brk) && n > 0
  {
    hide Layout, Round8, RoundPage;
    BreakRange(bs, brk);
    NeedIs(size);
    if size <= WORD_LIMIT - 0x40_1018 {
      LowBand(size);
      PagesIs(Need(size));
      BreakFacts(brk, PagesFor(Need(size)), grant);
    } else {
      HighBand(size);
    }
  }

  // ---- reuse ----

  /** free: the block keeps its place, swallows the next block exactly when that is free, and
      every other block stays. */
  lemma ReleaseFields(bs: Blocks, i: nat)
    requires i < |bs|
    ensures var r, m := Release(bs, i), i + 1 < |bs| && bs[i + 1].free;
            && |r| == (if m then |bs| - 1 else |bs|) && r[..i] == bs[..i]
            && r[i] == Block(bs[i].addr, if m then bs[i].size + HDR + bs[i + 1].size else bs[i].size, true)
            && r[i + 1..] == bs[if m then i + 2 else i + 1..]
  {
  }

  /** Once a block is freed, any request it can hold succeeds, even when the kernel grants
      nothing, at or below it. */
  lemma FreedIsReused(bs: Blocks, brk: nat, i: nat, size: nat, grant: bool)
    requires Layout(bs, brk) && i < |bs| && !bs[i].free && 0 < size <= bs[i].size
    ensures var o := Malloc(Release(bs, i), brk, size, grant);
            0 < o.ptr <= bs[i].Payload() && o.brk == brk
  {
    hide Layout, Malloc, Release, Need;
    ReleaseKeeps(bs, brk, i);
    ReleaseFields(bs, i);
    BelowBreak(bs, brk, i);
    BreakRange(bs, brk);
    NeedFits(size, bs[i].size);
    MallocMeetsPromise(Release(bs, i), brk, size, grant);
    assert Release(bs, i)[i] in Release(bs, i) && Roomy(Release(bs, i)[i], Need(size));
  }

  lemma NeedFits(size: nat, room: nat)
    requires size <= room && Aligned(room)
    ensures size <= Need(size) <= room
  {
    var q, r := size / 8, size % 8;
    Bits.DivMod(size, 8);
    Bits.DivMod(room, 8);
  }

  /** malloc, free, malloc of one size returns the same pointer. */
  lemma MallocFreeMalloc(bs: Blocks, brk: nat, size: nat, grant: bool, grant': bool) returns (i: nat)
    requires Layout(bs, brk) && Served(size) && Malloc(bs, brk, size, grant).ptr != 0
    ensures var o := Malloc(bs, brk, size, grant);
            LiveAt(o.bs, i, o.ptr) && Malloc(Release(o.bs, i), o.brk, size, grant').ptr == o.ptr
  {
    hide Layout, Malloc, Need, PagesFor, Release;
    var o, need := Malloc(bs, brk, size, grant), Need(size);
    MallocMeetsPromise(bs, brk, size, grant);
    MallocKeeps(bs, brk, size, grant);
    i := FirstRoom(bs, brk, o.bs, need, size, grant, o);
    var r := Release(o.bs, i);
    ReleaseKeeps(o.bs, o.brk, i);
    ReleaseFields(o.bs, i);
    assert Roomy(r[i], need);
    forall m | 0 <= m < i ensures !Roomy(r[m], need) {
      assert r[m] == r[..i][m] == o.bs[..i][m];
    }
    FirstIsLowest(r, o.brk, need, i);
    MallocMeetsPromise(r, o.brk, size, grant');
    GetsLowest(r, o.brk, size, grant', Malloc(r, o.brk, size, grant'), i);
  }

  lemma GetsLowest(bs: Blocks, brk: nat, size: nat, grant: bool, o: Outcome, i: nat)
    requires Promised(bs, brk, size, grant, o) && size > 0 && Lowest(bs, i, Need(size))
    ensures o.ptr == bs[i].Payload()
  {
    hide Need, PagesFor;
    assert bs[i] in bs;
    var k: nat :| Lowest(bs, k, Need(size)) && o.ptr == bs[k].Payload();
    assert bs[k] in bs;
  }

  lemma ReusedAt(bs: Blocks, brk: nat, bs': Blocks, need: nat, k: nat)
    requires Layout(bs, brk) && Lowest(bs, k, need) && Reuses(bs, k, need, bs')
    ensures LiveAt(bs', k, bs[k].Payload()) && bs'[k].size >= need
    ensures forall m :: 0 <= m < k ==> !Roomy(bs'[m], need)
  {
    hide Layout, Aligned;
    var mid :| Carved(bs[k], need, mid) && bs' == bs[..k] + mid + bs[k + 1..];
    assert bs'[k] == mid[0];
    assert bs'[..k] == bs[..k];
    hide Carved, Reuses;
    forall m | 0 <= m < k ensures !Roomy(bs'[m], need) {
      assert bs'[m] == bs'[..k][m] == bs[m] && bs[m] in bs;
      Ordered(bs, brk, m, k);
    }
  }

  /** Where the new block is, and that nothing before it would have done. */
  lemma FirstRoom(bs: Blocks, brk: nat, bs': Blocks, need: nat, size: nat, grant: bool, o: Outcome) returns (i: nat)
    requires Layout(bs, brk) && Promised(bs, brk, size, grant, o) && o.ptr != 0 && bs' == o.bs && need == Need(size)
    ensures LiveAt(bs', i, o.ptr) && bs'[i].size >= need && forall m :: 0 <= m < i ==> !Roomy(bs'[m], need)
  {
    hide Layout, Need, PagesFor, Reuses;
    if exists b :: b in bs && Roomy(b, need) {
      var k: nat :| Lowest(bs, k, need) && Reuses(bs, k, need, o.bs) && o.ptr == bs[k].Payload();
      i := k;
      ReusedAt(bs, brk, o.bs, need, k);
    } else {
      i := |bs|;
      forall m | 0 <= m < i ensures !Roomy(o.bs[m], need) { assert o.bs[m] == bs[m] && bs[m] in bs; }
    }
  }

  // ---- conservation ----

  /** Bytes of all blocks, headers included. */
  ghost function Span(bs: Blocks): nat { if bs == [] then 0 else Span(bs[..|bs| - 1]) + HDR + bs[|bs| - 1].size }

  lemma {:induction false} SpanConcat(a: Blocks, b: Blocks)
    ensures Span(a + b) == Span(a) + Span(b)
    decreases |b|
  {
    if b == [] {
      assert a + b == a;
    } else {
      var n := |b| - 1;
      assert (a + b)[..|a + b| - 1] == a + b[..n];
      SpanConcat(a, b[..n]);
    }
  }

  lemma SpanOne(b: Block)
    ensures Span([b]) == HDR + b.size
  {
    assert [b][..0] == [];
  }

  lemma SpanCut(bs: Blocks, k: nat, mid: Blocks, j: nat)
    requires k <= j <= |bs|
    ensures Span(bs[..k] + mid + bs[j..]) + Span(bs[k..j]) == Span(bs) + Span(mid)
  {
    hide Span;
    SpanConcat(bs[..k] + mid, bs[j..]);
    SpanConcat(bs[..k], mid);
    assert bs == bs[..k] + bs[k..j] + bs[j..];
    SpanConcat(bs[..k] + bs[k..j], bs[j..]);
    SpanConcat(bs[..k], bs[k..j]);
  }

  lemma SpanCarved(b: Block, need: nat, mid: Blocks)
    requires Carved(b, need, mid)
    ensures Span(mid) == HDR + b.size
  {
    SpanOne(mid[0]);
    if |mid| == 2 {
      assert mid == [mid[0]] + [mid[1]];
      SpanConcat([mid[0]], [mid[1]]);
      SpanOne(mid[1]);
    } else {
      assert mid == [mid[0]];
    }
  }

  /** Taking a free block loses no byte; a block at the break adds what the break moved by,
      less than a page of it unused. */
  lemma MallocSpan(bs: Blocks, brk: nat, size: nat, grant: bool)
    requires Layout(bs, brk) && Served(size)
    ensures var o := Malloc(bs, brk, size, grant);
            if o.brk == brk then Span(o.bs) == Span(bs)
            else Span(bs) < Span(o.bs) <= Span(bs) + (o.brk - brk) < Span(o.bs) + PAGE
  {
    hide Layout, Malloc, Need, PagesFor, Span;
    var o, need := Malloc(bs, brk, size, grant), Need(size);
    MallocMeetsPromise(bs, brk, size, grant);
    PagesBound(need);
    if size != 0 {
      if exists b :: b in bs && Roomy(b, need) {
        var k: nat :| Lowest(bs, k, need) && Reuses(bs, k, need, o.bs) && o.brk == brk;
        var mid :| Carved(bs[k], need, mid) && o.bs == bs[..k] + mid + bs[k + 1..];
        SpanCut(bs, k, mid, k + 1);
        SpanCarved(bs[k], need, mid);
        SpanOne(bs[k]);
        assert bs[k..k + 1] == [bs[k]];
      } else if o.brk != brk {
        SpanConcat(bs, [Block(brk, need, false)]);
        SpanOne(Block(brk, need, false));
      }
    }
  }

  lemma PagesBound(need: nat)
    ensures need + HDR <= PagesFor(need) < need + HDR + PAGE
  {
  }

  /** free loses no byte either. */
  lemma ReleaseSpan(bs: Blocks, i: nat)
    requires i < |bs|
    ensures Span(Release(bs, i)) == Span(bs)
  {
    hide Span, Release;
    var r := Release(bs, i);
    ReleaseFields(bs, i);
    SpanOne(r[i]);
    SpanOne(bs[i]);
    var merged := i + 1 < |bs| && bs[i + 1].free;
    var j := if merged then i + 2 else i + 1;
    assert r == r[..i] + [r[i]] + r[i + 1..];
    SpanCut(bs, i, [r[i]], j);
    if merged {
      SpanOne(bs[i + 1]);
      assert bs[i..i + 2] == [bs[i]] + [bs[i + 1]];
      SpanConcat([bs[i]], [bs[i + 1]]);
    } else {
      assert bs[i..i + 1] == [bs[i]];
    }
  }

  /** Over every run no byte leaves the list, and it gains no more than the break moved. */
  lemma {:induction false} RunConserves(bs: Blocks, brk: nat, ops: seq<Op>, bs': Blocks, brk': nat)
    requires Layout(bs, brk) && Run(bs, brk, ops, bs', brk')
    ensures brk <= brk' && Span(bs) <= Span(bs') <= Span(bs) + (brk' - brk)
    decreases |ops|
  {
    hide Layout, Malloc, Span, Release;
    if ops != [] {
      match ops[0]
      case DoMalloc(size, grant) =>
        var o := Malloc(bs, brk, size, grant);
        MallocKeeps(bs, brk, size, grant);
        MallocSpan(bs, brk, size, grant);
        RunConserves(o.bs, o.brk, ops[1..], bs', brk');
      case DoFree(ptr) =>
        if ptr == 0 {
          RunConserves(bs, brk, ops[1..], bs', brk');
        } else {
          var i :| LiveAt(bs, i, ptr) && Run(Release(bs, i), brk, ops[1..], bs', brk');
          ReleaseKeeps(bs, brk, i);
          ReleaseSpan(bs, i);
          RunConserves(Release(bs, i), brk, ops[1..], bs', brk');
        }
    }
  }
}
