/** malloc, free, calloc and realloc over byte memory: block headers live in the heap
    itself, linked by address, and every field is a little-endian load or store. */
module Heap {
  import opened HeapBlocks
  import opened HeapPolicy
  import opened ByteMemory

  function SizeOf(m: Bytes, b: nat): nat { Load(m, b, 8) }
  function FreeOf(m: Bytes, b: nat): nat { Load(m, b + 8, 4) }
  function NextOf(m: Bytes, b: nat): nat { Load(m, b + 16, 8) }

  function SetSize(m: Bytes, b: nat, v: nat): Bytes { Store(m, b, 8, v) }
  function SetFree(m: Bytes, b: nat, v: nat): Bytes { Store(m, b + 8, 4, v) }
  function SetNext(m: Bytes, b: nat, v: nat): Bytes { Store(m, b + 16, 8, v) }

  /** The header of `b`, linked to `next`, is what memory holds at its address. */
  ghost predicate HdrIs(m: Bytes, b: Block, next: nat) {
    SizeOf(m, b.addr) == b.size && FreeOf(m, b.addr) == (if b.free then 1 else 0) && NextOf(m, b.addr) == next
  }

  /** Address of block `i`, or 0 past the end. */
  ghost function AddrAt(bs: Blocks, i: nat): nat { if i < |bs| then bs[i].addr else 0 }

  ghost predicate HdrOk(m: Bytes, bs: Blocks, i: nat)
    requires i < |bs|
  {
    HdrIs(m, bs[i], AddrAt(bs, i + 1))
  }

  /** The linked headers starting at `head` are exactly the blocks `bs`. */
  ghost predicate Repr(m: Bytes, head: nat, bs: Blocks) {
    head == AddrAt(bs, 0) && forall i :: 0 <= i < |bs| ==> HdrOk(m, bs, i)
  }

  /** Memory agrees outside `n` bytes at `a`. */
  ghost predicate SameBut(m: Bytes, m': Bytes, a: nat, n: nat) {
    forall x: nat :: x < a || a + n <= x ==> Get(m', x) == Get(m, x)
  }

  ghost predicate SameBut2(m: Bytes, m': Bytes, a: nat, b: nat) {
    forall x: nat :: (x < a || a + HDR <= x) && (x < b || b + HDR <= x) ==> Get(m', x) == Get(m, x)
  }

  /** `n` bytes at `p` in `m` are those at `src` in `m0`. */
  ghost predicate Copied(m: Bytes, p: nat, m0: Bytes, src: nat, n: nat) {
    forall y: nat :: p <= y < p + n ==> Get(m, y) == Get(m0, src + (y - p))
  }

  lemma StoreSame(m: Bytes, a: nat, n: nat, v: nat)
    ensures SameBut(m, Store(m, a, n, v), a, n)
  {
    forall x: nat | x < a || a + n <= x ensures Get(Store(m, a, n, v), x) == Get(m, x) {
      StoreFrame(m, a, n, v, x);
    }
  }

  lemma HdrFrame(m: Bytes, m': Bytes, b: Block, next: nat)
    requires HdrIs(m, b, next)
    requires forall x :: b.addr <= x < b.addr + HDR ==> Get(m', x) == Get(m, x)
    ensures HdrIs(m', b, next)
  {
    hide Load, Get;
    LoadFrame(m, m', b.addr, 8);
    LoadFrame(m, m', b.addr + 8, 4);
    LoadFrame(m, m', b.addr + 16, 8);
  }

  // ---- the three field writes ----

  lemma SetSizeIs(m: Bytes, b: Block, next: nat, v: nat)
    requires HdrIs(m, b, next) && v < WORD_LIMIT
    ensures var m' := SetSize(m, b.addr, v);
            HdrIs(m', b.(size := v), next) && SameBut(m, m', b.addr, HDR)
  {
    hide Load, Store, Get;
    Pow256Values();
    LoadStored(m, b.addr, 8, v);
    LoadAfterStore(m, b.addr, 8, v, b.addr + 8, 4);
    LoadAfterStore(m, b.addr, 8, v, b.addr + 16, 8);
    StoreSame(m, b.addr, 8, v);
  }

  lemma SetFreeIs(m: Bytes, b: Block, next: nat, free: bool)
    requires HdrIs(m, b, next)
    ensures var m' := SetFree(m, b.addr, if free then 1 else 0);
            HdrIs(m', b.(free := free), next) && SameBut(m, m', b.addr, HDR)
  {
    hide Load, Store, Get;
    var v := if free then 1 else 0;
    Pow256Values();
    LoadStored(m, b.addr + 8, 4, v);
    LoadAfterStore(m, b.addr + 8, 4, v, b.addr, 8);
    LoadAfterStore(m, b.addr + 8, 4, v, b.addr + 16, 8);
    StoreSame(m, b.addr + 8, 4, v);
  }

  lemma SetNextIs(m: Bytes, b: Block, next: nat, next': nat)
    requires HdrIs(m, b, next) && next' < WORD_LIMIT
    ensures var m' := SetNext(m, b.addr, next');
            HdrIs(m', b, next') && SameBut(m, m', b.addr, HDR)
  {
    hide Load, Store, Get;
    Pow256Values();
    LoadStored(m, b.addr + 16, 8, next');
    LoadAfterStore(m, b.addr + 16, 8, next', b.addr, 8);
    LoadAfterStore(m, b.addr + 16, 8, next', b.addr + 8, 4);
    StoreSame(m, b.addr + 16, 8, next');
  }

  /** A whole header written over anything. */
  lemma NewHdr(m: Bytes, b: Block, next: nat)
    requires b.size < WORD_LIMIT && next < WORD_LIMIT
    ensures var m' := SetNext(SetFree(SetSize(m, b.addr, b.size), b.addr, if b.free then 1 else 0), b.addr, next);
            HdrIs(m', b, next) && SameBut(m, m', b.addr, HDR)
  {
    hide Load, Store, Get;
    var f := if b.free then 1 else 0;
    var m1 := SetSize(m, b.addr, b.size);
    var m2 := SetFree(m1, b.addr, f);
    var m3 := SetNext(m2, b.addr, next);
    Pow256Values();
    LoadStored(m, b.addr, 8, b.size);
    LoadStored(m1, b.addr + 8, 4, f);
    LoadStored(m2, b.addr + 16, 8, next);
    LoadAfterStore(m1, b.addr + 8, 4, f, b.addr, 8);
    LoadAfterStore(m2, b.addr + 16, 8, next, b.addr, 8);
    LoadAfterStore(m2, b.addr + 16, 8, next, b.addr + 8, 4);
    StoreSame(m, b.addr, 8, b.size);
    StoreSame(m1, b.addr + 8, 4, f);
    StoreSame(m2, b.addr + 16, 8, next);
  }

  // ---- what the writes of each operation do to the list ----

  /** Headers other than the rewritten ones survive; blocks are disjoint. */
  lemma OtherHdr(m: Bytes, m': Bytes, bs: Blocks, brk: nat, i: nat, k: nat, b: nat)
    requires Layout(bs, brk) && i < |bs| && k < |bs| && i != k && HdrOk(m, bs, k)
    requires SameBut2(m, m', bs[i].addr, b)
    requires bs[i].addr <= b && b + HDR <= bs[i].End()
    ensures HdrIs(m', bs[k], AddrAt(bs, k + 1))
  {
    hide Get, SizeOf, FreeOf, NextOf;
    LivePayloads(bs, brk, k, i);
    BelowBreak(bs, brk, k);
    HdrFrame(m, m', bs[k], AddrAt(bs, k + 1));
  }

  lemma Fields(bs: Blocks, brk: nat, i: nat)
    requires Layout(bs, brk) && i < |bs|
    ensures bs[i].size < WORD_LIMIT && 0 < bs[i].addr < WORD_LIMIT && AddrAt(bs, i + 1) < WORD_LIMIT
    ensures bs[i].End() < WORD_LIMIT && (i + 1 < |bs| ==> AddrAt(bs, i + 1) != 0)
  {
    BelowBreak(bs, brk, i);
    if i + 1 < |bs| { BelowBreak(bs, brk, i + 1); }
  }

  /** Memory after the split branch of malloc, in the order of its writes. */
  function SplitMem(m: Bytes, b: nat, r: nat): Bytes {
    var nb := b + HDR + r;
    var size := SizeOf(m, b);
    var rest := if size >= r + HDR then size - r - HDR else 0;
    var m3 := SetNext(SetFree(SetSize(m, nb, rest), nb, 1), nb, NextOf(m, b));
    SetFree(SetNext(SetSize(m3, b, r), b, nb), b, 0)
  }

  lemma SplitRepr(m: Bytes, head: nat, bs: Blocks, brk: nat, k: nat, r: nat)
    requires Layout(bs, brk) && Repr(m, head, bs) && k < |bs| && 8 <= r && r + HDR + 8 <= bs[k].size
    ensures var m' := SplitMem(m, bs[k].addr, r);
            Repr(m', head, Take(bs, k, r)) && SameBut2(m, m', bs[k].addr, bs[k].addr + HDR + r)
  {
    hide Get, SizeOf, FreeOf, NextOf, SetSize, SetFree, SetNext, Layout;
    var b, bs' := bs[k], Take(bs, k, r);
    var nb := Block(b.addr + HDR + r, b.size - r - HDR, true);
    var next := AddrAt(bs, k + 1);
    Fields(bs, brk, k);
    BelowBreak(bs, brk, k);
    assert HdrOk(m, bs, k);
    NewHdr(m, nb, next);
    var m3 := SetNext(SetFree(SetSize(m, nb.addr, nb.size), nb.addr, 1), nb.addr, next);
    HdrFrame(m, m3, b, next);
    SetSizeIs(m3, b, next, r);
    var m4 := SetSize(m3, b.addr, r);
    SetNextIs(m4, b.(size := r), next, nb.addr);
    var m5 := SetNext(m4, b.addr, nb.addr);
    SetFreeIs(m5, b.(size := r), nb.addr, false);
    var m' := SetFree(m5, b.addr, 0);
    assert m' == SplitMem(m, b.addr, r);
    assert SameBut2(m, m', b.addr, nb.addr);
    HdrFrame(m3, m', nb, next);
    forall i | 0 <= i < |bs'| ensures HdrOk(m', bs', i) {
      if i < k {
        assert HdrOk(m, bs, i);
        OtherHdr(m, m', bs, brk, k, i, nb.addr);
      } else if i > k + 1 {
        assert bs'[i] == bs[i - 1];
        assert HdrOk(m, bs, i - 1);
        OtherHdr(m, m', bs, brk, k, i - 1, nb.addr);
      }
    }
  }

  /** A block rewritten in its own header, and nothing else changed. */
  lemma RewriteRepr(m: Bytes, m': Bytes, head: nat, bs: Blocks, brk: nat, k: nat, b: Block)
    requires Layout(bs, brk) && Repr(m, head, bs) && k < |bs| && b.addr == bs[k].addr
    requires SameBut(m, m', b.addr, HDR) && HdrIs(m', b, AddrAt(bs, k + 1))
    ensures Repr(m', head, bs[k := b])
  {
    hide Get, SizeOf, FreeOf, NextOf, Layout;
    var bs' := bs[k := b];
    BelowBreak(bs, brk, k);
    forall i | 0 <= i < |bs'| ensures HdrOk(m', bs', i) {
      if i != k {
        assert HdrOk(m, bs, i);
        OtherHdr(m, m', bs, brk, k, i, bs[k].addr);
      }
    }
  }

  lemma TakeWholeRepr(m: Bytes, head: nat, bs: Blocks, brk: nat, k: nat)
    requires Layout(bs, brk) && Repr(m, head, bs) && k < |bs|
    ensures var m' := SetFree(m, bs[k].addr, 0);
            Repr(m', head, bs[k := bs[k].(free := false)]) && SameBut(m, m', bs[k].addr, HDR)
  {
    hide Get, SizeOf, FreeOf, NextOf, SetSize, SetFree, SetNext, Layout;
    assert HdrOk(m, bs, k);
    SetFreeIs(m, bs[k], AddrAt(bs, k + 1), false);
    RewriteRepr(m, SetFree(m, bs[k].addr, 0), head, bs, brk, k, bs[k].(free := false));
  }

  /** A new header at the old break, linked from the last block. */
  function GrowMem(m: Bytes, last: nat, brk: nat, r: nat): Bytes {
    var m3 := SetNext(SetFree(SetSize(m, brk, r), brk, 0), brk, 0);
    if last == 0 then m3 else SetNext(m3, last, brk)
  }

  lemma GrowRepr(m: Bytes, head: nat, bs: Blocks, brk: nat, r: nat)
    requires Layout(bs, brk) && Repr(m, head, bs) && r < WORD_LIMIT
    ensures var last := if bs == [] then 0 else bs[|bs| - 1].addr;
            var m' := GrowMem(m, last, brk, r);
            && Repr(m', if bs == [] then brk else head, bs + [Block(brk, r, false)])
            && SameBut2(m, m', brk, if bs == [] then brk else last)
  {
    hide Get, SizeOf, FreeOf, NextOf, SetSize, SetFree, SetNext;
    var n, nb := |bs|, Block(brk, r, false);
    var bs' := bs + [nb];
    NewHdr(m, nb, 0);
    var m3 := SetNext(SetFree(SetSize(m, brk, r), brk, 0), brk, 0);
    if n > 0 {
      var last := bs[n - 1];
      BelowBreak(bs, brk, n - 1);
      assert HdrOk(m, bs, n - 1);
      HdrFrame(m, m3, last, 0);
      SetNextIs(m3, last, 0, brk);
      var m' := SetNext(m3, last.addr, brk);
      HdrFrame(m3, m', nb, 0);
      forall i | 0 <= i < |bs'| ensures HdrOk(m', bs', i) {
        if i < n - 1 {
          assert HdrOk(m, bs, i);
          BelowBreak(bs, brk, i);
          Ordered(bs, brk, i, n - 1);
          HdrFrame(m, m', bs[i], AddrAt(bs, i + 1));
        }
      }
    }
  }

  /** Memory after free, in the order of its writes. */
  function ReleaseMem(m: Bytes, b: nat): Bytes {
    var m1 := SetFree(m, b, 1);
    var next := NextOf(m1, b);
    if next != 0 && FreeOf(m1, next) != 0 then
      var m2 := SetSize(m1, b, (SizeOf(m1, b) + HDR + SizeOf(m1, next)) % WORD_LIMIT);
      SetNext(m2, b, NextOf(m2, next))
    else m1
  }

  lemma ReleaseRepr(m: Bytes, head: nat, bs: Blocks, brk: nat, k: nat)
    requires Layout(bs, brk) && Repr(m, head, bs) && k < |bs|
    ensures var m' := ReleaseMem(m, bs[k].addr);
            Repr(m', head, Release(bs, k)) && SameBut(m, m', bs[k].addr, HDR)
  {
    hide Get, SizeOf, FreeOf, NextOf, SetSize, SetFree, SetNext, Layout;
    var b, next := bs[k], AddrAt(bs, k + 1);
    assert HdrOk(m, bs, k);
    Fields(bs, brk, k);
    SetFreeIs(m, b, next, true);
    var m1 := SetFree(m, b.addr, 1);
    RewriteRepr(m, m1, head, bs, brk, k, b.(free := true));
    var bs1 := bs[k := b.(free := true)];
    assert HdrOk(m1, bs1, k);
    if k + 1 < |bs| {
      assert HdrOk(m1, bs1, k + 1);
      if bs[k + 1].free {
        MergeRepr(m, m1, head, bs, brk, k);
      }
    }
  }

  /** Every header of the merged chain, given the grown block's own. */
  lemma MergedHdrs(m: Bytes, m': Bytes, head: nat, bs: Blocks, brk: nat, k: nat)
    requires Layout(bs, brk) && Repr(m, head, bs) && k + 1 < |bs| && bs[k + 1].free
    requires SameBut(m, m', bs[k].addr, HDR)
    requires HdrIs(m', Block(bs[k].addr, bs[k].size + HDR + bs[k + 1].size, true), AddrAt(bs, k + 2))
    ensures Repr(m', head, Release(bs, k))
  {
    hide Get, SizeOf, FreeOf, NextOf, Layout;
    var bs' := Release(bs, k);
    forall i | 0 <= i < |bs'| ensures HdrOk(m', bs', i) {
      if i < k {
        assert HdrOk(m, bs, i);
        OtherHdr(m, m', bs, brk, k, i, bs[k].addr);
      } else if i > k {
        assert bs'[i] == bs[i + 1];
        assert HdrOk(m, bs, i + 1);
        OtherHdr(m, m', bs, brk, k, i + 1, bs[k].addr);
      }
    }
  }

  /** The header writes of a merge: the sizes add up, and the link skips the merged block. */
  lemma MergeWrites(m: Bytes, b: Block, c: Block, after: nat)
    requires var m1 := SetFree(m, b.addr, 1); HdrIs(m1, b.(free := true), c.addr) && HdrIs(m1, c, after)
    requires c.free && c.addr != 0 && b.addr + HDR <= c.addr && after < WORD_LIMIT
    requires b.size + HDR + c.size < WORD_LIMIT
    ensures var m1, m' := SetFree(m, b.addr, 1), ReleaseMem(m, b.addr);
            HdrIs(m', Block(b.addr, b.size + HDR + c.size, true), after) && SameBut(m1, m', b.addr, HDR)
  {
    hide Get, SizeOf, FreeOf, NextOf, SetSize, SetFree, SetNext;
    var m1, size := SetFree(m, b.addr, 1), b.size + HDR + c.size;
    SetSizeIs(m1, b.(free := true), c.addr, size);
    var m2 := SetSize(m1, b.addr, size);
    HdrFrame(m1, m2, c, after);
    SetNextIs(m2, Block(b.addr, size, true), c.addr, after);
  }

  lemma MergeRepr(m: Bytes, m1: Bytes, head: nat, bs: Blocks, brk: nat, k: nat)
    requires Layout(bs, brk) && Repr(m, head, bs) && k + 1 < |bs| && bs[k + 1].free
    requires m1 == SetFree(m, bs[k].addr, 1) && HdrIs(m1, bs[k].(free := true), bs[k + 1].addr)
    requires SameBut(m, m1, bs[k].addr, HDR) && HdrOk(m1, bs[k := bs[k].(free := true)], k + 1)
    requires bs[k + 1].addr != 0
    ensures var m' := ReleaseMem(m, bs[k].addr);
            Repr(m', head, Release(bs, k)) && SameBut(m, m', bs[k].addr, HDR)
  {
    hide Get, HdrIs, SetFree, ReleaseMem, Layout, Aligned, Release, Repr;
    var b, c := bs[k], bs[k + 1];
    Fields(bs, brk, k);
    Fields(bs, brk, k + 1);
    BelowBreak(bs, brk, k);
    BelowBreak(bs, brk, k + 1);
    Ordered(bs, brk, k, k + 1);
    MergeWrites(m, b, c, AddrAt(bs, k + 2));
    MergedHdrs(m, ReleaseMem(m, b.addr), head, bs, brk, k);
  }

  // ---- live payloads are never written ----

  ghost predicate LiveSame(bs: Blocks, m: Bytes, m': Bytes) {
    forall x: nat :: LiveByte(bs, x) ==> Get(m', x) == Get(m, x)
  }

  /** Writing block `k`'s header, and possibly a second header inside it if it is free,
      touches no live byte. */
  lemma LiveKept(m: Bytes, m': Bytes, bs: Blocks, brk: nat, k: nat, b: nat)
    requires Layout(bs, brk) && k < |bs| && SameBut2(m, m', bs[k].addr, b)
    requires b == bs[k].addr || (bs[k].free && bs[k].addr <= b && b + HDR <= bs[k].End())
    ensures LiveSame(bs, m, m')
  {
    hide Get, Layout;
    forall x: nat | LiveByte(bs, x) ensures Get(m', x) == Get(m, x) {
      var c :| Live(bs, c) && c.Payload() <= x < c.End();
      var i :| 0 <= i < |bs| && bs[i] == c;
      BelowBreak(bs, brk, k);
      if i != k { LivePayloads(bs, brk, i, k); }
    }
  }

  lemma LiveKeptBeyond(m: Bytes, m': Bytes, bs: Blocks, brk: nat)
    requires Layout(bs, brk)
    requires SameBut2(m, m', brk, if bs == [] then brk else bs[|bs| - 1].addr)
    ensures LiveSame(bs, m, m')
  {
    hide Get, Layout;
    forall x: nat | LiveByte(bs, x) ensures Get(m', x) == Get(m, x) {
      var c :| Live(bs, c) && c.Payload() <= x < c.End();
      var i :| 0 <= i < |bs| && bs[i] == c;
      BelowBreak(bs, brk, i);
      if i != |bs| - 1 { LivePayloads(bs, brk, i, |bs| - 1); }
    }
  }

  /** The process heap: memory, head of the block list, and the kernel's break. */
  class Allocator {
    var mem: Bytes
    var freelist: nat
    var brk: nat
    ghost var blocks: Blocks

    ghost predicate Valid()
      reads this
    {
      Layout(blocks, brk) && Repr(mem, freelist, blocks)
    }

    constructor (mem: Bytes)
      ensures Valid() && blocks == [] && brk == HEAP_BASE && this.mem == mem
    {
      this.mem, freelist, brk, blocks := mem, 0, HEAP_BASE, [];
    }

    /** heap_grow: the old break, or 0 when the kernel refuses. */
    method HeapGrow(need: nat, grant: bool) returns (start: nat)
      requires 0 < brk
      modifies this`brk
      ensures brk == Break(old(brk), RoundPage(need), grant)
      ensures start == if brk == old(brk) then 0 else old(brk)
    {
      var n := RoundPage(need);
      var cur := brk;
      brk := Break(cur, n, grant);
      if brk == cur { return 0; }
      return cur;
    }

    /** malloc: first fit with splitting, else a new block at the break. The outcome is that
        of the block list for every size; the heap stays whole for every size served. */
    method Malloc(size: nat, grant: bool) returns (p: nat)
      requires Valid() && size < WORD_LIMIT
      modifies this
      ensures Outcome(blocks, brk, p) == HeapBlocks.Malloc(old(blocks), old(brk), size, grant)
      ensures Served(size) ==> Promised(old(blocks), old(brk), size, grant, Outcome(blocks, brk, p))
      ensures Served(size) ==> Valid() && LiveSame(old(blocks), old(mem), mem)
    {
      hide Layout, Get, SizeOf, FreeOf, NextOf, SetSize, SetFree, SetNext, Round8, Break, RoundPage, Served, Promised;
      if Served(size) { MallocMeetsPromise(blocks, brk, size, grant); }
      if size == 0 { return 0; }
      if Served(size) {
        MallocKeeps(blocks, brk, size, grant);
        RoundAtLeast(size);
      }
      RoundBelow(size);
      var r := Round8(size);
      var b := freelist;
      ghost var i := 0;
      while b != 0
        invariant i <= |blocks| && b == AddrAt(blocks, i)
        invariant FirstFit(blocks, r, 0) == FirstFit(blocks, r, i)
        invariant Valid() && blocks == old(blocks) && brk == old(brk) && mem == old(mem)
        decreases |blocks| - i
      {
        assert HdrOk(mem, blocks, i);
        if FreeOf(mem, b) != 0 && SizeOf(mem, b) >= r {
          TakeBlock(b, r, i);
          return b + HDR;
        }
        if i + 1 < |blocks| { Fields(blocks, brk, i); }
        b := NextOf(mem, b);
        i := i + 1;
      }
      assert i == |blocks| by { if i < |blocks| { Fields(blocks, brk, i); } }
      assert 0 < brk by { BreakPositive(blocks, brk); }
      var nb := HeapGrow((r + HDR) % WORD_LIMIT, grant);
      if nb == 0 { return 0; }
      Append(nb, r);
      return nb + HDR;
    }

    /** Takes the free block at `b`, splitting off the rest when it can hold a header and 8
        bytes. */
    method TakeBlock(b: nat, r: nat, ghost i: nat)
      requires Valid() && i < |blocks| && b == blocks[i].addr && blocks[i].free && r <= blocks[i].size
      modifies this`mem, this`blocks
      ensures blocks == Take(old(blocks), i, r)
      ensures 8 <= r ==> Repr(mem, freelist, blocks) && LiveSame(old(blocks), old(mem), mem)
    {
      hide Layout, Get, SizeOf, FreeOf, NextOf, SetSize, SetFree, SetNext;
      assert HdrOk(mem, blocks, i);
      if SizeOf(mem, b) >= r + HDR + 8 {
        if 8 <= r {
          SplitRepr(mem, freelist, blocks, brk, i, r);
          LiveKept(mem, SplitMem(mem, b, r), blocks, brk, i, b + HDR + r);
        }
        var nb, size, next := b + HDR + r, SizeOf(mem, b), NextOf(mem, b);
        mem := SetSize(mem, nb, size - r - HDR);
        mem := SetFree(mem, nb, 1);
        mem := SetNext(mem, nb, next);
        mem := SetSize(mem, b, r);
        mem := SetNext(mem, b, nb);
      } else {
        TakeWholeRepr(mem, freelist, blocks, brk, i);
        LiveKept(mem, SetFree(mem, b, 0), blocks, brk, i, b);
      }
      mem := SetFree(mem, b, 0);
      blocks := Take(blocks, i, r);
    }

    /** Writes the header of a new live block at the old break and links it last. */
    method Append(nb: nat, r: nat)
      requires Layout(blocks, nb) && Repr(mem, freelist, blocks) && r < WORD_LIMIT
      modifies this`mem, this`freelist, this`blocks
      ensures blocks == old(blocks) + [Block(nb, r, false)] && Repr(mem, freelist, blocks)
      ensures LiveSame(old(blocks), old(mem), mem)
    {
      hide Layout, Get, SizeOf, FreeOf, NextOf, SetSize, SetFree, SetNext;
      ghost var m0, n := mem, |blocks|;
      GrowRepr(mem, freelist, blocks, nb, r);
      mem := SetNext(SetFree(SetSize(mem, nb, r), nb, 0), nb, 0);
      assert n == 0 ==> mem == GrowMem(m0, 0, nb, r);
      if freelist == 0 {
        assert n == 0 by { if n > 0 { Fields(blocks, nb, 0); } }
        freelist := nb;
      } else {
        var t := freelist;
        ghost var i := 0;
        assert forall k :: 0 <= k < n ==> HdrOk(mem, blocks, k) by {
          forall k | 0 <= k < n ensures HdrOk(mem, blocks, k) {
            assert HdrOk(m0, blocks, k);
            BelowBreak(blocks, nb, k);
            NewHdr(m0, Block(nb, r, false), 0);
            HdrFrame(m0, mem, blocks[k], AddrAt(blocks, k + 1));
          }
        }
        while NextOf(mem, t) != 0
          invariant i < n && t == blocks[i].addr
          decreases n - i
        {
          assert HdrOk(mem, blocks, i);
          t := NextOf(mem, t);
          i := i + 1;
        }
        assert HdrOk(mem, blocks, i);
        assert i == n - 1 by { if i + 1 < n { Fields(blocks, nb, i); } }
        Fields(blocks, nb, i);
        mem := SetNext(mem, t, nb);
        assert mem == GrowMem(m0, t, nb, r);
      }
      LiveKeptBeyond(m0, mem, blocks, nb);
      blocks := blocks + [Block(nb, r, false)];
    }

    /** The writes of free on the header at `b`. */
    method ReleaseBlock(b: nat)
      modifies this`mem
      ensures mem == ReleaseMem(old(mem), b)
    {
      hide SizeOf, FreeOf, NextOf, SetSize, SetFree, SetNext;
      mem := SetFree(mem, b, 1);
      var next := NextOf(mem, b);
      if next != 0 && FreeOf(mem, next) != 0 {
        mem := SetSize(mem, b, (SizeOf(mem, b) + HDR + SizeOf(mem, next)) % WORD_LIMIT);
        mem := SetNext(mem, b, NextOf(mem, next));
      }
    }

    /** free of null or of a live pointer. */
    method Free(ptr: nat, ghost k: nat)
      requires Valid() && (ptr == 0 || LiveAt(blocks, k, ptr))
      modifies this`mem, this`blocks
      ensures Valid()
      ensures blocks == if ptr == 0 then old(blocks) else Release(old(blocks), k)
      ensures LiveSame(old(blocks), old(mem), mem)
    {
      hide Layout, Get, SizeOf, FreeOf, NextOf, SetSize, SetFree, SetNext;
      if ptr == 0 { return; }
      var b := ptr - HDR;
      ReleaseKeeps(blocks, brk, k);
      ReleaseRepr(mem, freelist, blocks, brk, k);
      LiveKept(mem, ReleaseMem(mem, b), blocks, brk, k, b);
      ReleaseBlock(b);
      blocks := Release(blocks, k);
    }

    /** memset(p, 0, n) */
    method Memset(p: nat, n: nat)
      modifies this`mem
      ensures forall x :: p <= x < p + n ==> Get(mem, x) == 0
      ensures SameBut(old(mem), mem, p, n)
    {
      var i := 0;
      while i < n
        invariant i <= n
        invariant forall x :: p <= x < p + i ==> Get(mem, x) == 0
        invariant SameBut(old(mem), mem, p, n)
      {
        ghost var m := mem;
        mem := mem[p + i := 0];
        assert forall x: nat :: x != p + i ==> Get(mem, x) == Get(m, x);
        i := i + 1;
      }
    }

    /** memcpy(p, src, n): exact for ranges that do not overlap. */
    method Memcpy(p: nat, src: nat, n: nat)
      modifies this`mem
      ensures src + n <= p || p + n <= src ==> Copied(mem, p, old(mem), src, n)
      ensures SameBut(old(mem), mem, p, n)
    {
      var i := 0;
      while i < n
        invariant i <= n
        invariant src + n <= p || p + n <= src ==> Copied(mem, p, old(mem), src, i)
        invariant SameBut(old(mem), mem, p, n)
      {
        ghost var m := mem;
        mem := mem[p + i := Get(mem, src + i)];
        assert forall x: nat :: x != p + i ==> Get(mem, x) == Get(m, x);
        i := i + 1;
      }
    }

    /** calloc: like malloc of the 64-bit product, and every byte of it is zero. */
    method Calloc(nmemb: nat, size: nat, grant: bool) returns (p: nat)
      requires Valid()
      modifies this
      ensures Outcome(blocks, brk, p) == HeapBlocks.Malloc(old(blocks), old(brk), nmemb * size % WORD_LIMIT, grant)
      ensures p != 0 ==> forall x :: p <= x < p + nmemb * size % WORD_LIMIT ==> Get(mem, x) == 0
      ensures Served(nmemb * size % WORD_LIMIT) ==> Valid() && LiveSame(old(blocks), old(mem), mem)
    {
      hide Layout, Repr, Get, Round8, RoundPage, Break, HeapBlocks.Malloc, Served;
      var total := nmemb * size % WORD_LIMIT;
      ghost var nb := Block(0, 0, true);
      if Served(total) { nb := MallocAddsOne(blocks, brk, total, grant); }
      p := Malloc(total, grant);
      if p != 0 {
        ghost var m1 := mem;
        Memset(p, total);
        if Served(total) {
          ghost var k := FindBlock(blocks, nb);
          SameButMore(m1, mem, p, total, nb.size);
          PayloadWriteRepr(m1, mem, freelist, blocks, brk, k);
          OldLiveKept(old(blocks), old(mem), m1, mem, blocks, freelist, brk, k);
        }
      }
    }

    /** realloc: keeps the block when it is large enough; otherwise moves its contents to a
        new block, or fails and leaves the old block alone. */
    method Realloc(ptr: nat, size: nat, grant: bool, ghost k: nat) returns (p: nat)
      requires Valid() && size < WORD_LIMIT && (ptr == 0 || LiveAt(blocks, k, ptr))
      modifies this
      ensures Served(size) ==> Valid() && LiveSame(old(blocks), old(mem), mem)
      ensures ptr != 0 && size == 0 ==> p == 0 && blocks == Release(old(blocks), k)
      ensures ptr != 0 && 0 < size <= old(blocks)[k].size ==> p == ptr && blocks == old(blocks) && mem == old(mem)
      ensures ptr == 0 ==> Outcome(blocks, brk, p) == HeapBlocks.Malloc(old(blocks), old(brk), size, grant)
      ensures ptr != 0 && size > old(blocks)[k].size ==>
                var o := HeapBlocks.Malloc(old(blocks), old(brk), size, grant);
                && p == o.ptr && brk == o.brk
                && (p == 0 ==> blocks == o.bs)
                && (p != 0 && Served(size) ==>
                      && (exists j :: LiveAt(o.bs, j, ptr) && blocks == Release(o.bs, j))
                      && Copied(mem, p, old(mem), ptr, old(blocks)[k].size))
    {
      hide Layout, Repr, Get, Round8, RoundPage, Break, HeapBlocks.Malloc, Served;
      if ptr == 0 {
        p := Malloc(size, grant);
        return;
      }
      if size == 0 {
        Free(ptr, k);
        return 0;
      }
      HeaderSize(mem, freelist, blocks, k);
      if SizeOf(mem, ptr - HDR) >= size { return ptr; }
      p := Relocate(ptr, size, grant, k);
    }

    /** realloc to a larger size: a new block, the old payload copied, the old block freed. */
    method Relocate(ptr: nat, size: nat, grant: bool, ghost k: nat) returns (p: nat)
      requires Valid() && size < WORD_LIMIT && LiveAt(blocks, k, ptr) && size > blocks[k].size
      modifies this
      ensures Served(size) ==> Valid() && LiveSame(old(blocks), old(mem), mem)
      ensures var o := HeapBlocks.Malloc(old(blocks), old(brk), size, grant);
              && p == o.ptr && brk == o.brk
              && (p == 0 ==> blocks == o.bs)
              && (p != 0 && Served(size) ==>
                    && (exists j :: LiveAt(o.bs, j, ptr) && blocks == Release(o.bs, j))
                    && Copied(mem, p, old(mem), ptr, old(blocks)[k].size))
    {
      hide Layout, Repr, Get, Round8, RoundPage, Break, HeapBlocks.Malloc, Served;
      hide SizeOf, ReleaseMem, Release, LiveSame, Copied, SameBut, Aligned;
      ghost var was, nb := blocks[k], Block(0, 0, true);
      if Served(size) { nb := MallocAddsOne(blocks, brk, size, grant); }
      p := Malloc(size, grant);
      if p == 0 { return; }
      ghost var m1 := mem;
      if Served(size) {
        assert Live(old(blocks), was);
        HeaderSize(mem, freelist, blocks, FindBlock(blocks, was));
        LivePayloads(blocks, brk, FindBlock(blocks, was), FindBlock(blocks, nb));
      }
      Memcpy(p, ptr, SizeOf(mem, ptr - HDR));
      ghost var m2 := mem;
      ReleaseBlock(ptr - HDR);
      if Served(size) {
        ghost var j := Moved(old(blocks), old(mem), blocks, m1, m2, freelist, brk, was, nb);
        blocks := Release(blocks, j);
      }
    }
  }

  /** Copying a live block into a new one and freeing it keeps the heap and every byte that
      was live, and leaves the copy. */
  lemma Moved(bs0: Blocks, m0: Bytes, bs: Blocks, m1: Bytes, m2: Bytes, head: nat, brk: nat, was: Block, nb: Block)
    returns (j: nat)
    requires Layout(bs, brk) && Repr(m1, head, bs) && LiveSame(bs0, m0, m1)
    requires Live(bs0, was) && !Live(bs0, nb) && Live(bs, nb) && was.size <= nb.size
    requires forall b :: Live(bs0, b) ==> Live(bs, b)
    requires SameBut(m1, m2, nb.Payload(), was.size) && Copied(m2, nb.Payload(), m1, was.Payload(), was.size)
    ensures LiveAt(bs, j, was.Payload())
    ensures var m3 := ReleaseMem(m2, was.addr);
            && Layout(Release(bs, j), brk) && Repr(m3, head, Release(bs, j))
            && LiveSame(bs0, m0, m3) && Copied(m3, nb.Payload(), m0, was.Payload(), was.size)
  {
    hide Layout, Repr, Get, Copied, LiveSame, ReleaseMem;
    j := FindBlock(bs, was);
    var n := FindBlock(bs, nb);
    SameButMore(m1, m2, nb.Payload(), was.size, nb.size);
    PayloadWriteRepr(m1, m2, head, bs, brk, n);
    OldLiveKept(bs0, m0, m1, m2, bs, head, brk, n);
    MovedBytes(bs0, m0, m1, m2, was, nb.Payload());
    ReleaseKeeps(bs, brk, j);
    ReleaseRepr(m2, head, bs, brk, j);
    LiveKept(m2, ReleaseMem(m2, was.addr), bs, brk, j, was.addr);
    MovedKept(bs0, bs, m0, m2, ReleaseMem(m2, was.addr), was, nb);
  }

  lemma SameButMore(m: Bytes, m': Bytes, a: nat, n: nat, k: nat)
    requires SameBut(m, m', a, n) && n <= k
    ensures SameBut(m, m', a, k)
  {
  }

  /** The bytes copied out of a live block are its bytes before the allocation. */
  lemma MovedBytes(bs0: Blocks, m0: Bytes, m1: Bytes, m2: Bytes, was: Block, p: nat)
    requires Live(bs0, was) && LiveSame(bs0, m0, m1) && Copied(m2, p, m1, was.Payload(), was.size)
    ensures Copied(m2, p, m0, was.Payload(), was.size)
  {
    hide Get;
    forall y: nat | p <= y < p + was.size ensures Get(m2, y) == Get(m0, was.Payload() + (y - p)) {
      assert LiveByte(bs0, was.Payload() + (y - p));
    }
  }

  lemma MovedKept(bs0: Blocks, bs2: Blocks, m0: Bytes, m2: Bytes, m3: Bytes, was: Block, nb: Block)
    requires forall b :: Live(bs0, b) ==> Live(bs2, b)
    requires Live(bs2, nb) && was.size <= nb.size && LiveSame(bs0, m0, m2) && LiveSame(bs2, m2, m3)
    requires Copied(m2, nb.Payload(), m0, was.Payload(), was.size)
    ensures LiveSame(bs0, m0, m3) && Copied(m3, nb.Payload(), m0, was.Payload(), was.size)
  {
    hide Get;
    forall x: nat | LiveByte(bs0, x) ensures Get(m3, x) == Get(m0, x) {
      var c :| Live(bs0, c) && c.Payload() <= x < c.End();
      assert Live(bs2, c);
      assert LiveByte(bs2, x);
    }
    var p := nb.Payload();
    forall y: nat | p <= y < p + was.size ensures Get(m3, y) == Get(m0, was.Payload() + (y - p)) {
      assert LiveByte(bs2, y);
    }
  }

  ghost function FindBlock(bs: Blocks, b: Block): (i: nat)
    requires b in bs
    ensures i < |bs| && bs[i] == b
  {
    var i :| 0 <= i < |bs| && bs[i] == b;
    i
  }

  lemma HeaderSize(m: Bytes, head: nat, bs: Blocks, k: nat)
    requires Repr(m, head, bs) && k < |bs|
    ensures SizeOf(m, bs[k].addr) == bs[k].size
  {
    assert HdrOk(m, bs, k);
  }

  /** Filling a block that was not live before leaves the previously live bytes alone. */
  lemma OldLiveKept(bs0: Blocks, m0: Bytes, m1: Bytes, m2: Bytes, bs: Blocks, head: nat, brk: nat, k: nat)
    requires Layout(bs, brk) && Repr(m1, head, bs) && k < |bs| && !Live(bs0, bs[k])
    requires forall b :: Live(bs0, b) ==> Live(bs, b)
    requires LiveSame(bs0, m0, m1) && SameBut(m1, m2, bs[k].Payload(), bs[k].size)
    ensures LiveSame(bs0, m0, m2)
  {
    hide Get, Layout, Repr;
    PayloadWriteRepr(m1, m2, head, bs, brk, k);
    forall x: nat | LiveByte(bs0, x) ensures Get(m2, x) == Get(m0, x) {
      var c :| Live(bs0, c) && c.Payload() <= x < c.End();
      assert Live(bs, c) && c != bs[k];
    }
  }

  // ---- writes by the owner of a block ----

  lemma PayloadWriteRepr(m: Bytes, m': Bytes, head: nat, bs: Blocks, brk: nat, k: nat)
    requires Layout(bs, brk) && Repr(m, head, bs) && k < |bs|
    requires SameBut(m, m', bs[k].Payload(), bs[k].size)
    ensures Repr(m', head, bs)
    ensures forall c, x: nat :: Live(bs, c) && c != bs[k] && c.Payload() <= x < c.End() ==> Get(m', x) == Get(m, x)
  {
    hide Get, SizeOf, FreeOf, NextOf, Layout;
    forall i | 0 <= i < |bs| ensures HdrOk(m', bs, i) {
      assert HdrOk(m, bs, i);
      BelowBreak(bs, brk, i);
      if i != k { LivePayloads(bs, brk, i, k); }
      HdrFrame(m, m', bs[i], AddrAt(bs, i + 1));
    }
    forall c, x: nat | Live(bs, c) && c != bs[k] && c.Payload() <= x < c.End()
      ensures Get(m', x) == Get(m, x)
    {
      var i :| 0 <= i < |bs| && bs[i] == c;
      LivePayloads(bs, brk, i, k);
    }
  }

  lemma RoundAtLeast(size: nat)
    requires Served(size) && size > 0
    ensures 8 <= Round8(size)
  {
    RoundFacts(size);
  }

  lemma RoundBelow(size: nat)
    ensures Round8(size) < WORD_LIMIT
  {
  }

  lemma BreakPositive(bs: Blocks, brk: nat)
    requires Layout(bs, brk)
    ensures 0 < brk
  {
  }
}
