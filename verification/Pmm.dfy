/** The physical page allocator: free 4 KB pages form a stack threaded through their
    own first words. */
module Pmm {
  import opened Bits
  import opened Descriptors
  import opened Seqs

  const WORDS: nat := 512

  /** The 512 64-bit words of one page. */
  type Page = s: seq<nat> | |s| == WORDS witness Repeat<nat>(WORDS, 0)

  const ZeroPage: Page := Repeat<nat>(WORDS, 0)

  /** Physical memory, page by page; the key is the page's address. */
  type Memory = map<nat, Page>

  /** `freelist` and `free_count` with the memory they thread through. */
  datatype Pool = Pool(mem: Memory, freelist: nat, freeCount: int)

  // Addresses outside the modelled memory read as zero and swallow writes; the
  // invariants below keep every access inside it.
  function Peek(mem: Memory, p: nat): Page {
    if p in mem then mem[p] else ZeroPage
  }

  function Poke(mem: Memory, p: nat, i: nat, v: nat): Memory
    requires i < WORDS
  {
    if p in mem then mem[p := mem[p][i := v]] else mem
  }

  /** pmm_free: push `p`, writing the old head into its first word. */
  function Free(s: Pool, p: nat): Pool {
    if p == 0 then s
    else Pool(Poke(s.mem, p, 0, s.freelist), p, s.freeCount + 1)
  }

  /** pmm_alloc: pop the head and hand it out zeroed, or 0 when the list is empty. */
  function Alloc(s: Pool): (Pool, nat) {
    if s.freelist == 0 then (s, 0)
    else
      var pa := s.freelist;
      var mem := if pa in s.mem then s.mem[pa := ZeroPage] else s.mem;
      (Pool(mem, Peek(s.mem, pa)[0], s.freeCount - 1), pa)
  }

  const ADDRESSES: nat := 0x1_0000_0000_0000_0000

  /** Rounding up wraps at the top of the 64-bit space. */
  function AlignUp(v: nat): nat { (v + PAGE_SIZE - 1) % ADDRESSES / PAGE_SIZE * PAGE_SIZE }

  function AlignDown(v: nat): nat { v / PAGE_SIZE * PAGE_SIZE }

  /** The pages [start, end) in ascending order. */
  function Frames(start: nat, end: nat): seq<nat>
    decreases end - start
  {
    if end <= start then [] else [start] + Frames(start + PAGE_SIZE, end)
  }

  /** pmm_add_range on aligned bounds: push every page, highest address first. */
  function Enrol(s: Pool, start: nat, end: nat): Pool
    decreases end - start
  {
    if end <= start then s
    else Free(Enrol(s, start + PAGE_SIZE, end), start)
  }

  /** `ps` is the list that starts at `head` and follows the first words to 0. */
  ghost predicate IsList(mem: Memory, head: nat, ps: seq<nat>)
    decreases |ps|
  {
    if ps == [] then head == 0
    else head == ps[0] && head != 0 && head in mem && IsList(mem, mem[head][0], ps[1..])
  }

  /** The free list is `free`: acyclic, each page once, and counted exactly. */
  ghost predicate FreeIs(s: Pool, free: seq<nat>) {
    IsList(s.mem, s.freelist, free) && NoDup(free) && s.freeCount == |free|
  }

  lemma {:induction false} ListMembers(mem: Memory, head: nat, ps: seq<nat>)
    requires IsList(mem, head, ps)
    ensures forall p :: p in ps ==> p != 0 && p in mem
    decreases |ps|
  {
    if ps != [] {
      ListMembers(mem, mem[head][0], ps[1..]);
      assert ps == [ps[0]] + ps[1..];
    }
  }

  /** Writes outside the listed pages' first words leave the list alone. */
  lemma {:induction false} ListFrame(mem: Memory, mem': Memory, head: nat, ps: seq<nat>)
    requires IsList(mem, head, ps)
    requires forall p :: p in ps ==> p in mem && p in mem' && mem'[p][0] == mem[p][0]
    ensures IsList(mem', head, ps)
    decreases |ps|
  {
    if ps != [] {
      ListFrame(mem, mem', mem[head][0], ps[1..]);
    }
  }

  /** The list read off memory is unique. */
  lemma {:induction false} ListUnique(mem: Memory, head: nat, a: seq<nat>, b: seq<nat>)
    requires IsList(mem, head, a) && IsList(mem, head, b)
    ensures a == b
    decreases |a|
  {
    if a != [] && b != [] {
      ListUnique(mem, mem[head][0], a[1..], b[1..]);
      assert a == [a[0]] + a[1..] && b == [b[0]] + b[1..];
    }
  }

  /** Freeing a page that is not on the list puts it in front and touches one word. */
  lemma FreePushes(s: Pool, free: seq<nat>, p: nat)
    requires FreeIs(s, free)
    requires p != 0 && p in s.mem && p !in free
    ensures FreeIs(Free(s, p), [p] + free)
    ensures Free(s, p).mem == s.mem[p := s.mem[p][0 := s.freelist]]
  {
    var s' := Free(s, p);
    ListMembers(s.mem, s.freelist, free);
    ListFrame(s.mem, s'.mem, s.freelist, free);
    assert ([p] + free)[1..] == free;
  }

  /** Allocation pops the front page, zeroed; it fails exactly when the list is empty. */
  lemma AllocPops(s: Pool, free: seq<nat>)
    requires FreeIs(s, free)
    ensures var (s', p) := Alloc(s);
            if free == [] then p == 0 && s' == s
            else p == free[0] && p != 0 && p in s.mem
                 && FreeIs(s', free[1..]) && s'.mem == s.mem[p := ZeroPage]
  {
    if free != [] {
      var (s', p) := Alloc(s);
      ListMembers(s.mem, s.freelist, free);
      ListFrame(s.mem, s'.mem, s.mem[p][0], free[1..]);
    }
  }

  lemma {:induction false} FramesMembers(start: nat, end: nat)
    requires start % PAGE_SIZE == 0 && end % PAGE_SIZE == 0
    ensures forall p :: p in Frames(start, end) <==> start <= p < end && p % PAGE_SIZE == 0
    decreases end - start
  {
    if start < end {
      FramesMembers(start + PAGE_SIZE, end);
    }
  }

  lemma FirstOnce(start: nat, end: nat)
    requires start % PAGE_SIZE == 0 && end % PAGE_SIZE == 0
    ensures start !in Frames(start + PAGE_SIZE, end)
  {
    FramesMembers(start + PAGE_SIZE, end);
  }

  /** Enrolling a fresh range puts its pages in front of the list in ascending order,
      so allocations come back in ascending order. */
  lemma {:induction false} EnrolPushes(s: Pool, free: seq<nat>, start: nat, end: nat)
    requires FreeIs(s, free)
    requires start % PAGE_SIZE == 0 && end % PAGE_SIZE == 0 && start > 0
    requires forall p :: p in Frames(start, end) ==> p in s.mem && p !in free
    ensures FreeIs(Enrol(s, start, end), Frames(start, end) + free)
    ensures Enrol(s, start, end).mem.Keys == s.mem.Keys
    ensures forall p :: p in s.mem && p !in Frames(start, end) ==> Enrol(s, start, end).mem[p] == s.mem[p]
    decreases end - start
  {
    hide Frames, Enrol, FreeIs, Free;
    EnrolUnfolds(s, start, end);
    if end <= start {
      assert [] + free == free;
    } else {
      var rest, t := Frames(start + PAGE_SIZE, end), Enrol(s, start + PAGE_SIZE, end);
      RestFits(s, free, start, rest);
      EnrolPushes(s, free, start + PAGE_SIZE, end);
      EnrolOne(s, t, free, rest, start);
    }
  }

  lemma RestFits(s: Pool, free: seq<nat>, start: nat, rest: seq<nat>)
    requires forall p :: p in [start] + rest ==> p in s.mem && p !in free
    ensures start in s.mem && start !in free && forall p :: p in rest ==> p in s.mem && p !in free
  {
    assert start in [start] + rest;
  }

  lemma EnrolUnfolds(s: Pool, start: nat, end: nat)
    requires start % PAGE_SIZE == 0 && end % PAGE_SIZE == 0
    ensures end <= start ==> Frames(start, end) == [] && Enrol(s, start, end) == s
    ensures start < end ==>
              var rest := Frames(start + PAGE_SIZE, end);
              && Frames(start, end) == [start] + rest && start !in rest && (start + PAGE_SIZE) % PAGE_SIZE == 0
              && Enrol(s, start, end) == Free(Enrol(s, start + PAGE_SIZE, end), start)
  {
    if start < end { FirstOnce(start, end); }
  }

  /** One more page in front of those already enrolled. */
  lemma EnrolOne(s: Pool, t: Pool, free: seq<nat>, rest: seq<nat>, start: nat)
    requires FreeIs(t, rest + free) && t.mem.Keys == s.mem.Keys
    requires start != 0 && start in s.mem && start !in free && start !in rest
    requires forall p :: p in s.mem && p !in rest ==> t.mem[p] == s.mem[p]
    ensures FreeIs(Free(t, start), [start] + rest + free) && Free(t, start).mem.Keys == s.mem.Keys
    ensures forall p :: p in s.mem && p !in [start] + rest ==> Free(t, start).mem[p] == s.mem[p]
  {
    hide FreeIs, Free;
    FreePushes(t, rest + free, start);
    assert [start] + rest + free == [start] + (rest + free);
  }

  // ---- ranges with any bounds ----

  /** The pages pmm_add_range puts on the list: page 0 is null to pmm_free. */
  ghost function RangePages(start: nat, end: nat): seq<nat> {
    var fs := Frames(AlignUp(start), AlignDown(end));
    if AlignUp(start) == 0 && fs != [] then fs[1..] else fs
  }

  /** `p` is a page that lies wholly inside [start, end). */
  ghost predicate Whole(p: nat, start: nat, end: nat) {
    p > 0 && p % 4096 == 0 && start <= p && p + 4096 <= end
  }

  ghost predicate Ascending(ps: seq<nat>) { forall i, j :: 0 <= i < j < |ps| ==> ps[i] < ps[j] }

  lemma {:induction false} FramesAscend(start: nat, end: nat)
    requires start % PAGE_SIZE == 0 && end % PAGE_SIZE == 0
    ensures Ascending(Frames(start, end))
    decreases end - start
  {
    if start < end {
      FramesAscend(start + PAGE_SIZE, end);
      FramesMembers(start + PAGE_SIZE, end);
      var rest := Frames(start + PAGE_SIZE, end);
      forall i, j | 0 <= i < j < |[start] + rest| ensures ([start] + rest)[i] < ([start] + rest)[j] {
        assert rest[j - 1] in rest;
      }
    }
  }

  lemma DownIs(end: nat, p: nat)
    requires p % PAGE_SIZE == 0
    ensures p < AlignDown(end) <==> p + PAGE_SIZE <= end
  {
    var k, q := p / PAGE_SIZE, end / PAGE_SIZE;
    DivMod(p, PAGE_SIZE);
    DivMod(end, PAGE_SIZE);
    assert AlignDown(end) == PAGE_SIZE * q;
  }

  lemma UpIs(start: nat, p: nat)
    requires start <= ADDRESSES - PAGE_SIZE && p % PAGE_SIZE == 0
    ensures AlignUp(start) <= p <==> start <= p
  {
    var x := start + PAGE_SIZE - 1;
    var k, q := p / PAGE_SIZE, x / PAGE_SIZE;
    DivModUnique(x, ADDRESSES, 0, x);
    DivMod(p, PAGE_SIZE);
    DivMod(x, PAGE_SIZE);
    assert AlignUp(start) == PAGE_SIZE * q;
  }

  lemma Multiples(start: nat, end: nat)
    ensures AlignUp(start) % PAGE_SIZE == 0 && AlignDown(end) % PAGE_SIZE == 0
    ensures ADDRESSES - PAGE_SIZE < start < ADDRESSES ==> AlignUp(start) == 0
  {
    var x := start + PAGE_SIZE - 1;
    DivModUnique(AlignDown(end), PAGE_SIZE, end / PAGE_SIZE, 0);
    DivModUnique(AlignUp(start), PAGE_SIZE, x % ADDRESSES / PAGE_SIZE, 0);
    if ADDRESSES - PAGE_SIZE < start < ADDRESSES {
      DivModUnique(x, ADDRESSES, 1, x - ADDRESSES);
      DivModUnique(x - ADDRESSES, PAGE_SIZE, 0, x - ADDRESSES);
    }
  }

  lemma AlignFacts(start: nat, end: nat)
    requires start < ADDRESSES
    ensures AlignUp(start) % PAGE_SIZE == 0 && AlignDown(end) % PAGE_SIZE == 0
    ensures forall p: nat :: p % PAGE_SIZE == 0 ==> (p < AlignDown(end) <==> p + PAGE_SIZE <= end)
    ensures start <= ADDRESSES - PAGE_SIZE ==>
              forall p: nat :: p % PAGE_SIZE == 0 ==> (AlignUp(start) <= p <==> start <= p)
    ensures start > ADDRESSES - PAGE_SIZE ==> AlignUp(start) == 0
  {
    hide AlignUp, AlignDown;
    Multiples(start, end);
    forall p: nat | p % PAGE_SIZE == 0 ensures p < AlignDown(end) <==> p + PAGE_SIZE <= end { DownIs(end, p); }
    if start <= ADDRESSES - PAGE_SIZE {
      forall p: nat | p % PAGE_SIZE == 0 ensures AlignUp(start) <= p <==> start <= p { UpIs(start, p); }
    }
  }

  lemma RangeMembers(start: nat, end: nat)
    requires start < ADDRESSES
    ensures Ascending(RangePages(start, end))
    ensures forall p :: p in RangePages(start, end) <==>
              p > 0 && p % PAGE_SIZE == 0 && AlignUp(start) <= p < AlignDown(end)
  {
    hide AlignUp, AlignDown;
    AlignFacts(start, end);
    var lo, hi := AlignUp(start), AlignDown(end);
    FramesAscend(lo, hi);
    FramesMembers(lo, hi);
    var fs := Frames(lo, hi);
    if lo == 0 && fs != [] {
      assert fs[0] == 0;
      DropZero(fs);
    }
  }

  lemma DropZero(ps: seq<nat>)
    requires Ascending(ps) && ps != [] && ps[0] == 0
    ensures Ascending(ps[1..]) && forall p :: p in ps[1..] <==> p in ps && p > 0
  {
    forall p | p in ps[1..] ensures p in ps && p > 0 {
      var i :| 0 <= i < |ps[1..]| && ps[1..][i] == p;
      assert ps[i + 1] == p;
    }
    assert ps == [0] + ps[1..];
  }

  /** The pages enrolled are the whole pages of the range, in ascending order, exactly when
      rounding its start does not wrap, or the range would hold none above page 0 anyway. */
  lemma WholePagesIff(start: nat, end: nat)
    requires start < ADDRESSES && end < ADDRESSES
    ensures Ascending(RangePages(start, end))
    ensures (forall p :: p in RangePages(start, end) <==> Whole(p, start, end)) <==>
              start <= ADDRESSES - 4096 || end < 8192
  {
    hide AlignUp, AlignDown, RangePages;
    AlignFacts(start, end);
    RangeMembers(start, end);
    if start > ADDRESSES - 4096 {
      if end >= 8192 {
        assert PAGE_SIZE in RangePages(start, end) && !Whole(PAGE_SIZE, start, end);
      }
    }
  }

  /** A range that starts at the last byte and ends at 12 KB holds no page, yet two are enrolled. */
  lemma RangeWrapCase()
    ensures RangePages(ADDRESSES - 1, 0x3000) == [0x1000, 0x2000]
    ensures !Whole(0x1000, ADDRESSES - 1, 0x3000) && !Whole(0x2000, ADDRESSES - 1, 0x3000)
  {
    assert AlignUp(ADDRESSES - 1) == 0 && AlignDown(0x3000) == 0x3000;
    assert Frames(0x3000, 0x3000) == [];
    assert Frames(0x2000, 0x3000) == [0x2000];
    assert Frames(0x1000, 0x3000) == [0x1000, 0x2000];
    assert Frames(0, 0x3000) == [0, 0x1000, 0x2000];
  }

  /** pmm_add_range on any bounds: the pages enrolled go in front of the list. */
  lemma AddRangePushes(s: Pool, free: seq<nat>, start: nat, end: nat)
    requires FreeIs(s, free) && start < ADDRESSES
    requires forall p :: p in RangePages(start, end) ==> p in s.mem && p !in free
    ensures var s' := Enrol(s, AlignUp(start), AlignDown(end));
            && FreeIs(s', RangePages(start, end) + free) && s'.mem.Keys == s.mem.Keys
            && forall p :: p in s.mem && p !in RangePages(start, end) ==> s'.mem[p] == s.mem[p]
  {
    hide AlignUp, AlignDown, FreeIs;
    AlignFacts(start, end);
    var lo, hi := AlignUp(start), AlignDown(end);
    if lo > 0 {
      EnrolPushes(s, free, lo, hi);
    } else if hi > 0 {
      assert Frames(0, hi) == [0] + Frames(PAGE_SIZE, hi);
      assert Enrol(s, 0, hi) == Enrol(s, PAGE_SIZE, hi);
      EnrolPushes(s, free, PAGE_SIZE, hi);
    } else {
      assert [] + free == free;
    }
  }
}
